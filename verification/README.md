# Graviton verification model

A Dafny model of the algorithmic parts of the OrbitCloud Graviton library, with proofs of what
they mean. To verify the project: `dafny verify dfyconfig.toml`.

| file | what it models |
|---|---|
| `Ipv4.dfy` | IPv4 networks as Python's `ipaddress` computes with them: masks, `overlaps`, `subnet_of`, indexing |
| `VnetPlan.dfy` | the virtual network validator, said in sets of addresses, and the room a plan needs |
| `PublicIp.dfy` | `is_public_ip` |
| `NsgRules.dfy` | network security rules: meaning for packets, compilation to priorities |
| `NsgPackets.dfy` | which packets keep the listed meaning, for any priorities |
| `VnetNsgs.dfy` | the loops that write priorities into rule objects and share one deny rule |
| `Naming.dfy` | the two resource namers and exactly when they agree |
| `SnakeCase.dfy` | `_pascal_to_snake` |
| `Metadata.dfy`, `IndexAgreement.dfy` | the metadata loader, its two indexes and their agreement, up to the names |
| `ResourceIds.dfy` | Azure resource IDs: the expression as a relation, parsing, rendering |
| `StackReferences.dfy`, `StackOutputs.dfy` | `stack://` references, dotted lookup, the cache of stack references |
| `Durations.dfy` | duration texts and the rotation period chosen for them |
| `Ports.dfy`, `Firewall.dfy`, `FirewallPolicy.dfy` | port texts, firewall rules, the policy validator and the group chain |
| `Workload.dfy` | secrets and permissions of apps and jobs through shared list objects |
| `OidcSubjects.dfy` | GitHub federated credential subjects |
| `Text.dfy`, `Counting.dfy`, `Dicts.dfy`, `Wrappers.dfy` | ASCII strings, finite counting, dictionaries filled by assignments, Option and Result |

Conventions. Addresses are naturals below 2^32. Integers are unbounded, as in Python. Texts are
ASCII and free of newlines, so that `$` and `.` in regular expressions, `isdigit`, `lower` and
`title` have their plain meaning. Exceptions are `Err`, `None` or `false` results. Code out of
reach is a parameter: how the platform matches a rule text against a packet (`Traffic`, of which
only the wildcards are assumed to match), the answers of the stack service (`Backend`), the
default organisation, and the validity of network texts, service tags and UUIDs.
Configuration objects that the code changes in place are classes (rule objects, port fields,
list objects, the stack cache, the loader, the credentials).

## Where the code does less than it promises

Each line names the exact condition and, where there is one, a lemma at a failing input.

- The deny rule is promised to act on traffic "not specified above". With automatic priorities
  that holds for up to 3995 rules; beyond, `NsgRules.UnsetMeaningExactly` says for which packets
  (`NsgRules.UnsetMeaningLost`). For any priorities, `NsgPackets.MeaningKeptOnPackets` says when all
  packets keep the listed meaning and `NsgPackets.DecidedOnPackets` when none is left undecided
  (`NsgPackets.ExplicitMeaningLost`).
- A rule object listed by two subnets keeps the number of the first, so its order in the second can
  be reversed (`VnetNsgs.SharedNumber`, `VnetNsgs.GroupMeaningExactly`, `VnetNsgs.SharedOrderLost`).
- The two namers agree exactly on `Naming.Compatible` elements and, where a separator is used,
  the hyphen (`Naming.NamersAgree`, `Naming.NamersDiffer`).
- Different workloads can share a name: `Naming.ResourceNamerTells` and `Naming.AutonameTells` say
  which (`Naming.HyphenLost`).
- `_pascal_to_snake` gives two names one form exactly when they have the same shape
  (`SnakeCase.SnakeAgrees`, `SnakeCase.SnakeCollision`); class names that differ beyond case, or
  whose capitals stand apart, never collide.
- Two of the three module path overrides repeat the derived path (`IndexAgreement.PathShape`).
- A year is 52 weeks when parsed and 365 days when rotated, so `1y` rotates by months
  (`Durations.YearsRotation`).
- A single firewall address text is emitted character by character (`Firewall.EmittedAddresses`),
  and a destination given by service tags is not emitted at all (`Firewall.DestinationEmitted`,
  `Firewall.TextDestinationLost`).
- Every version 6 block counts as public, private ones included (`PublicIp.IsPublicIpMeaning`,
  `PublicIp.UniqueLocalIsPublic`).
- An app is created with the secrets of the apps before it, except exactly when
  `Workload.IsolatedExactly` says so (`Workload.SecretInherited`), and the registry key can occur
  twice (`Workload.RegistryKeyOnce`, `Workload.RegistryKeyTwice`).
- Different GitHub subjects can share a credential name: `OidcSubjects.NamesDistinctExactly` says
  when (`OidcSubjects.BranchNamesCollide`, `OidcSubjects.RepositoryNamesCollide`).
- Clashing class names overwrite one another in the flat index; `IndexAgreement.IndexesAgreeExactly`
  says for which classes the two indexes then still agree.
- Address spaces must be distinct but may overlap; `VnetPlan.Capacity` accounts for that.

## Model

| member | source | states |
|---|---|---|
| `Ipv4.MakeNetwork` | components/orbitcloud_graviton/az_network/types.py:14 | `IPv4Network(v, strict=True)`, once the text is an address and a prefix length: built exactly from a 32-bit address and a length up to 32 without host bits, as the aligned block around the address; host bits are cleared when not strict |
| `Ipv4.AndNetmask` | components/orbitcloud_graviton/az_lib/network.py:13 | ANDing bit by bit with the netmask rounds an address down to a multiple of the block size |
| `Ipv4.ContainsMeaning` | components/orbitcloud_graviton/az_network/vnet.py:90-94 | the mask test `address in network` is membership in the block |
| `Ipv4.OverlapsMeaning` | components/orbitcloud_graviton/az_network/vnet.py:90-94 | `overlaps`, four end point tests, holds exactly when the two address sets meet, and is symmetric |
| `Ipv4.SubnetMeaning` | components/orbitcloud_graviton/az_network/vnet.py:81-84 | `subnet_of`, two end point comparisons, is inclusion of address sets |
| `Ipv4.NestedOrDisjoint` | components/orbitcloud_graviton/az_lib/network.py:14 | aligned blocks are nested or disjoint; overlapping the larger is being a subnet of it |
| `Ipv4.ItemsAreAddresses` | components/orbitcloud_graviton/az_network/types.py:50-56 | `cidr[0]` and `cidr[-1]` are the least and greatest address, and indexing meets exactly the addresses |
| `VnetPlan.ValidateSubnets` | components/orbitcloud_graviton/az_network/vnet.py:69-99 | accepts exactly when spaces are distinct, every subnet's address set lies in one space and subnets are pairwise disjoint; a rejection names the first failed check and the first subnet at fault |
| `VnetPlan.OverlapTest` | components/orbitcloud_graviton/az_network/vnet.py:90-94 | with distinct prefixes, filtering by `other_subnet != subnet` looks at exactly the other indices |
| `VnetPlan.Capacity` | components/orbitcloud_graviton/az_network/vnet.py:70-97 | in an accepted plan the subnets' sizes sum to at most the addresses in the union of the spaces, which is at most the spaces' summed size, with equality exactly when spaces do not overlap |
| `PublicIp.IsPublicIpMeaning` | components/orbitcloud_graviton/az_lib/network.py:4-17 | malformed input is an error; a version 4 block is public exactly when no address of the masked block is private under section 3 of RFC 1918; every version 6 block is |
| `PublicIp.UniqueLocalIsPublic` | components/orbitcloud_graviton/az_lib/network.py:4-17 | fc00::/7 counts as public |
| `PublicIp.PublicIsInherited` | components/orbitcloud_graviton/az_lib/network.py:4-17 | every block inside a public block is public, of either version |
| `NsgRules.MeaningKeptExactly` | components/orbitcloud_graviton/az_network/vnet.py:176-217 | over match vectors, that is, every set of rules of a direction taken as matching together: the emitted rules give the first listed match exactly when a test on numbers and actions passes; for packets the test is sufficient |
| `NsgRules.SingleExactly` | components/orbitcloud_graviton/az_network/nsg.py:43-54 | a rule matching alone keeps its meaning exactly when its number is below 4096, or above it and the rule denies anyway, or it is outbound |
| `NsgRules.NeverAmbiguous` | components/orbitcloud_graviton/az_network/vnet.py:176-217 | over match vectors: none is undecided exactly when no two rules of the direction share a number the deny rule does not undercut, and none ties with the deny rule; for packets the test is sufficient |
| `NsgRules.DistinctDecides` | components/orbitcloud_graviton/az_network/vnet.py:176-217 | with distinct priorities every packet gets the action of the matching rule with the least number, the deny rule included |
| `NsgPackets.CopyMatches` | components/orbitcloud_graviton/az_network/vnet.py:176-217 | a packet of any traffic is matched by the same rules as a packet made of texts of the list |
| `NsgPackets.MeaningKeptOnPackets` | components/orbitcloud_graviton/az_network/vnet.py:176-217 | for any priorities and each direction: all packets get the first listed match (and Deny otherwise when inbound) exactly when the packets made of one choice of texts from two rules do |
| `NsgPackets.DecidedOnPackets` | components/orbitcloud_graviton/az_network/vnet.py:176-217 | no packet is left undecided exactly when none of those packets is |
| `NsgPackets.PairsKeptMeaning` | components/orbitcloud_graviton/az_network/vnet.py:176-217 | then the same holds of the packets of any traffic |
| `NsgPackets.KeptPairs` | components/orbitcloud_graviton/az_network/vnet.py:176-217 | the test on numbers and actions is enough for all packets |
| `NsgPackets.KeptAsksMore` | components/orbitcloud_graviton/az_network/vnet.py:176-217 | a wildcard rule shields a later one, so the test on numbers and actions can fail while every packet keeps its meaning |
| `NsgPackets.ExplicitMeaningLost` | components/orbitcloud_graviton/az_network/vnet.py:197-199 | an explicit number below that of an earlier rule overrules it on every packet both match |
| `NsgRules.OrderKeptMeaning` | components/orbitcloud_graviton/az_network/vnet.py:176-217 | with priorities rising along the list and below 4096 every packet gets the first listed match, although the deny rule is emitted first |
| `NsgRules.UnsetOrderKept` | components/orbitcloud_graviton/az_network/vnet.py:197-199 | automatic priorities rise and stay below the deny rule exactly for up to 3995 rules |
| `NsgRules.UnsetMeaning` | components/orbitcloud_graviton/az_network/vnet.py:176-217 | rules without priorities: every outbound packet, and with up to 3995 rules every inbound one, gets what the list says |
| `NsgRules.UnsetMeaningExactly` | components/orbitcloud_graviton/az_network/nsg.py:43-54 | for any number of rules, the packets that get the listed meaning are exactly the outbound ones and those whose first match is before rule 3996, or after it and denying |
| `NsgRules.UnsetMeaningLost` | components/orbitcloud_graviton/az_network/nsg.py:43-54 | behind 3995 rules that do not match, an allowing rule is undecided against the deny rule |
| `NsgRules.DistinctPriorities` | components/orbitcloud_graviton/az_network/vnet.py:176-199 | for any list the numbers are distinct exactly when explicit ones are distinct, differ from 4096 and avoid every automatic number, and rule 3996, if there is one, has an explicit number |
| `NsgRules.EmittedSays` | components/orbitcloud_graviton/az_network/vnet.py:200-217 | each emitted rule has the name, action, direction, texts and description of its configured one and its explicit number or 101 plus its place; the deny rule denies every inbound packet at 4096 |
| `VnetNsgs.EmitRule` | components/orbitcloud_graviton/az_network/vnet.py:197-217 | one turn: an unset priority becomes 100 plus the position, a set one stays, and the rule is emitted with its final number |
| `VnetNsgs.EmitRules` | components/orbitcloud_graviton/az_network/vnet.py:176-217 | after the loop each rule object carries its explicit priority or 100 plus its first position, and each emitted rule carries that number |
| `VnetNsgs.Nsgs` | components/orbitcloud_graviton/az_network/vnet.py:161-219 | the nested loops change the rule objects and fill the dictionary exactly as the value-level run says |
| `VnetNsgs.ExplicitKept` | components/orbitcloud_graviton/az_network/vnet.py:197-199 | over any number of subnets a priority once set never changes; the shared deny rule stays at 4096 |
| `VnetNsgs.GroupsMatchObjects` | components/orbitcloud_graviton/az_network/vnet.py:161-219 | one group per chosen subnet, holding the deny rule and the subnet's rules with the numbers their objects carry at the end, even when objects are shared |
| `VnetNsgs.SecondRunSame` | components/orbitcloud_graviton/az_network/vnet.py:161-219 | a second run changes no priority and creates the same groups |
| `VnetNsgs.UnsharedGroups` | components/orbitcloud_graviton/az_network/vnet.py:161-219 | without shared rule objects each group is the compilation of its subnet's own list |
| `VnetNsgs.LastOfName` | components/orbitcloud_graviton/az_network/vnet.py:218 | the dictionary gives under a name the last group created with it |
| `VnetNsgs.GroupsExactly` | components/orbitcloud_graviton/az_network/vnet.py:164-168 | the dictionary has a name exactly when a subnet of that name has rules, or any has it while defaults are created and it is not one of the three excluded names |
| `VnetNsgs.NoGroupForExcluded` | components/orbitcloud_graviton/az_network/vnet.py:33-37 | the validator accepts all subnets exactly when no group is created under a name in `NON_NSG_SUBNETS` |
| `VnetNsgs.GroupOf` | components/orbitcloud_graviton/az_network/vnet.py:164-218 | the group under the name of such a subnet holds the deny rule and exactly the rules of its own list, or none, with their final numbers |
| `VnetNsgs.DefaultDenies` | components/orbitcloud_graviton/az_network/nsg.py:43-54 | with defaults on, the group of every subnet not excluded denies an inbound packet that its list does not match |
| `VnetNsgs.SharedNumber` | components/orbitcloud_graviton/az_network/vnet.py:197-199 | a rule object ends up with its explicit number, or with 101 plus its first position in the first chosen subnet that lists it |
| `VnetNsgs.GroupCompiled` | components/orbitcloud_graviton/az_network/vnet.py:161-219 | end to end, rule objects shared or not: the created group is the compilation of its subnet's list with the final numbers, and the dictionary holds that group unless a later chosen subnet has the same name |
| `VnetNsgs.GroupMeaningExactly` | components/orbitcloud_graviton/az_network/vnet.py:161-219 | the created group gives every packet of a direction what the subnet's list says exactly when the packets made of the texts of two of its rules keep their meaning under the final numbers |
| `VnetNsgs.GroupMeaning` | components/orbitcloud_graviton/az_network/vnet.py:161-219 | and then so for the packets of any traffic |
| `VnetNsgs.UnsetGroupMeaning` | components/orbitcloud_graviton/az_network/vnet.py:161-219 | in particular with at most 3995 rules that all leave the priority unset, none repeated or listed by an earlier chosen subnet |
| `VnetNsgs.SharedOrderLost` | components/orbitcloud_graviton/az_network/vnet.py:197-199 | a rule listed third in one subnet and first in the next is overruled there by the rule after it |
| `Naming.FmtHyphen` | components/orbitcloud_graviton/az_lib/helpers.py:10-31 | `fmt_name` with its defaults turns every separator into a hyphen and lower-cases |
| `Naming.FmtDeletes` | components/orbitcloud_graviton/az_lib/helpers.py:10-31 | with an empty separator `fmt_name` deletes separators and, where there are none, only changes case |
| `Naming.V1Written` | components/orbitcloud_graviton/az_lib/naming_v1.py:34-63 | the v1 name or error, written out over the abbreviation of the region: elements with hyphens between them, or one after the other with letters in upper case exactly where no letter stands directly before |
| `Naming.V2Written` | components/orbitcloud_graviton/az_lib/meta.py:30-62 | the v2 name or error, written out likewise over the given or the stack's workload, for any separator; separators inside the elements are replaced or dropped |
| `Naming.NameForWritten` | components/orbitcloud_graviton/pulumi_lib/azure_base.py:63-69 | the namer of a stack uses the given workload, or the stack's when that is absent or empty |
| `Naming.CapitalWord` | components/orbitcloud_graviton/az_lib/helpers.py:20-21 | a word of letters is title-cased to its first letter in upper and the others in lower case |
| `Naming.SeparatorsAre` | components/orbitcloud_graviton/az_lib/helpers.py:18-19 | separators are white space and `-`, `.`, `_`, `/`, `:` |
| `Naming.TitledName` | components/orbitcloud_graviton/az_lib/naming_v1.py:43-63 | splitting, title-casing and joining the workload first comes to casing the elements, the workload without its hyphens |
| `Naming.NamersAgree` | components/orbitcloud_graviton/az_lib/meta.py:43-62 | the two namers give the same name or error exactly when the region is unknown, or the elements pass the character test and the separator, where one is used, is the hyphen |
| `Naming.NamersDiffer` | components/orbitcloud_graviton/az_lib/meta.py:43-62 | an upper-case environment gives two different names |
| `Naming.ResourceNamerTells` | components/orbitcloud_graviton/az_lib/naming_v1.py:43-63 | two workloads share a v1 name exactly when they are equal, up to case where lower-cased, up to case and hyphens where alphanumeric |
| `Naming.HyphenLost` | components/orbitcloud_graviton/az_lib/naming_v1.py:43-61 | `my-app` and `myapp` share every alphanumeric name |
| `Naming.AutonameTells` | components/orbitcloud_graviton/az_lib/meta.py:43-62 | for any separator, two workloads share a v2 name exactly when they agree character by character, in lower case and with that separator for each of theirs, and for alphanumeric types up to case and separators altogether |
| `Naming.SpreadHyphen` | components/orbitcloud_graviton/az_lib/helpers.py:10-31 | with the default separator that is agreement up to case and the choice of separators |
| `SnakeCase.SnakeKeepsLetters` | components/orbitcloud_graviton/az_lib/metadata/loader.py:82-94 | deleting underscores gives the lower-cased name |
| `SnakeCase.UnderscoresSeparate` | components/orbitcloud_graviton/az_lib/metadata/loader.py:90-94 | for letters and digits no underscore leads, trails or is doubled |
| `SnakeCase.SnakeTwice` | components/orbitcloud_graviton/az_lib/metadata/loader.py:82-94 | a second application changes nothing |
| `SnakeCase.SnakeConcat` | components/orbitcloud_graviton/az_lib/metadata/loader.py:82-94 | a name is rewritten part by part, with an underscore exactly at a boundary |
| `SnakeCase.SnakeIsPieces` | components/orbitcloud_graviton/az_lib/metadata/loader.py:82-94 | every name of letters and digits is made of pieces (capitals, then small letters and digits) and its form is the lower-cased pieces with underscores between them |
| `SnakeCase.SnakeKeepsPieces` | components/orbitcloud_graviton/az_lib/metadata/loader.py:82-94 | on names made of pieces, splitting the result at underscores gives the lower-cased pieces back |
| `SnakeCase.SnakeKeepsRun` | components/orbitcloud_graviton/az_lib/metadata/loader.py:82-94 | a run of capitals at the start, in the middle or at the end of a name is one piece, as in `AzureADAdministrator` |
| `SnakeCase.SnakeKeepsWords` | components/orbitcloud_graviton/az_lib/metadata/loader.py:82-94 | splitting the result at underscores gives back exactly the lower-cased words |
| `SnakeCase.SnakeAgrees` | components/orbitcloud_graviton/az_lib/metadata/loader.py:82-94 | two names of letters and digits get one form exactly when they have the same letters up to case and boundaries at the same places |
| `SnakeCase.SnakeInjective` | components/orbitcloud_graviton/az_lib/metadata/loader.py:82-94 | injective on names whose capitals stand apart |
| `SnakeCase.WordsApart` | components/orbitcloud_graviton/az_lib/metadata/loader.py:82-94 | names made of words are such names |
| `SnakeCase.WordsInjective` | components/orbitcloud_graviton/az_lib/metadata/loader.py:82-94 | the form of a name made of words determines the list of words |
| `SnakeCase.CaseTells` | components/orbitcloud_graviton/az_lib/metadata/loader.py:82-94 | names that differ beyond case never share a form, whatever runs of capitals they hold |
| `SnakeCase.SnakeCollision` | components/orbitcloud_graviton/az_lib/metadata/loader.py:82-94 | `AFDEndpoint` and `AfdEndpoint` share a form |
| `Metadata.Loader.BuildV1Prefixes` | components/orbitcloud_graviton/az_lib/metadata/loader.py:242-254 | makes the file's assignments, exclusions skipped and overrides used, on top of what the index held |
| `Metadata.Loader.LoadAll` | components/orbitcloud_graviton/az_lib/metadata/loader.py:257-283 | the loop leaves exactly the flat index and the tree of the files |
| `Metadata.RecordHolds` | components/orbitcloud_graviton/az_lib/metadata/loader.py:213-222 | a record holds the prefix, flags only when true, a length only when given, and nothing else |
| `Metadata.EntryHolds` | components/orbitcloud_graviton/az_lib/metadata/loader.py:183-210 | a tree entry holds the naming record and exactly the texts that are given |
| `IndexAgreement.V1PathsExactly` | components/orbitcloud_graviton/az_lib/metadata/loader.py:242-254 | the flat index has exactly the paths of the classes of all files that are not excluded |
| `IndexAgreement.TreeExactly` | components/orbitcloud_graviton/az_lib/metadata/loader.py:230-281 | the tree has exactly the v2 services, with their namespace and exactly their classes |
| `IndexAgreement.PathShape` | components/orbitcloud_graviton/az_lib/metadata/loader.py:104-111 | every path but that of `random`/`RandomPassword` is the derived path, overrides included |
| `IndexAgreement.PathWritten` | components/orbitcloud_graviton/az_lib/metadata/loader.py:104-111 | the path of a class named by pieces, written out |
| `IndexAgreement.PathTells` | components/orbitcloud_graviton/az_lib/metadata/loader.py:244-252 | for dot-free stems a module path determines the file and the snake-case class name |
| `IndexAgreement.FileKeysDistinct` | components/orbitcloud_graviton/az_lib/metadata/loader.py:244-254 | within any file whose listed class names are letters and digits, keys are distinct exactly when no two listed class names have the same shape, the overridden `RandomPassword` aside, which clashes with no other |
| `IndexAgreement.CaseNamesSuffice` | components/orbitcloud_graviton/az_lib/metadata/loader.py:82-94 | class names that differ beyond case never share a key, runs of capitals included |
| `IndexAgreement.WordNamesSuffice` | components/orbitcloud_graviton/az_lib/metadata/loader.py:82-94 | distinct class names whose capitals stand apart never share a key |
| `IndexAgreement.NothingOverwritten` | components/orbitcloud_graviton/az_lib/metadata/loader.py:242-281 | the flat index has one entry per listed class exactly when, within each file, no two listed class names clash |
| `IndexAgreement.IndexesAgree` | components/orbitcloud_graviton/az_lib/metadata/loader.py:230-281 | without clashes, every listed class of a v2 service has the same naming record in both indexes, which reads back as the file's rule |
| `IndexAgreement.IndexesAgreeExactly` | components/orbitcloud_graviton/az_lib/metadata/loader.py:230-281 | clashes or not, a flat entry holds the rule of the last listed class of its file with the same path (for class names of letters and digits, the last that clashes), so the indexes agree on a class exactly when that last class has the same rule |
| `IndexAgreement.FileOrderFree` | components/orbitcloud_graviton/az_lib/metadata/loader.py:271-281 | both indexes are the same for any order of the files, clashes or not |
| `IndexAgreement.NamesAgreeEndToEnd` | components/orbitcloud_graviton/az_lib/metadata/loader.py:257-290 | from the files to the names: both routes find the class, and the names agree exactly on the character test and, where a separator is used, the hyphen |
| `ResourceIds.ParamsIsPattern` | components/orbitcloud_graviton/az_lib/types.py:76-92 | parsing returns exactly the groups with which the expression matches |
| `ResourceIds.ValidIffParams` | components/orbitcloud_graviton/az_lib/types.py:55-60 | `is_valid` holds exactly when `_params` does not raise |
| `ResourceIds.Unambiguous` | components/orbitcloud_graviton/az_lib/types.py:77-83 | the expression matches a text in at most one way |
| `ResourceIds.ParseRendered` | components/orbitcloud_graviton/az_lib/types.py:76-92 | rendering any well-formed components and parsing returns them |
| `ResourceIds.RenderParsed` | components/orbitcloud_graviton/az_lib/types.py:76-92 | re-rendering an accepted text gives it back up to the case of the keywords |
| `ResourceIds.WrittenParsed` | components/orbitcloud_graviton/az_lib/types.py:76-92 | the full and the shortest form, written out, are read as their components |
| `ResourceIds.ConstructExactly` | components/orbitcloud_graviton/az_lib/types.py:62-66 | the constructor accepts exactly the texts that the expression matches with a UUID as subscription |
| `ResourceIds.ValidateIsConstruct` | components/orbitcloud_graviton/az_lib/types.py:62-66 | the validator's extra check rejects nothing the constructor accepts |
| `StackReferences.ParseRendered` | components/orbitcloud_graviton/az_lib/types.py:95-114 | rendering slash-free parts with a dot-free output and parsing returns them, whatever the default organisation |
| `StackReferences.WrittenParsed` | components/orbitcloud_graviton/az_lib/types.py:95-114 | the long form, written out with and without a path, is read as its parts |
| `StackReferences.ShortIsLong` | components/orbitcloud_graviton/az_lib/types.py:102-108 | the three-segment form is the four-segment form with the default organisation |
| `StackReferences.AcceptedRendersBack` | components/orbitcloud_graviton/az_lib/types.py:95-114 | accepted exactly with three or four segments, and then the parts written out are the reference |
| `StackReferences.DeepGetComposes` | components/orbitcloud_graviton/az_lib/types.py:117-122 | lookup along `p.q` is lookup of `q` in the result of `p`, for any values and texts |
| `StackReferences.FollowMeaning` | components/orbitcloud_graviton/az_lib/types.py:117-122 | a value other than None is found exactly when dictionaries lead to it along all keys |
| `StackOutputs.StackOutputs.GetStackOutput` | components/orbitcloud_graviton/az_lib/types.py:128-157 | keeps the cache consistent, adds at most the asked stack, answers as without a cache, and the answer means what it should |
| `StackOutputs.UncachedAnswers` | components/orbitcloud_graviton/az_lib/types.py:145-157 | the secret value when it is truthy, else the plain one; along a path into a dictionary exactly the value other than None that dictionaries lead to; an error exactly when there is none |
| `StackOutputs.StackOutputs.Run` | components/orbitcloud_graviton/az_lib/types.py:125-157 | over any sequence of calls every answer is the uncached one |
| `StackOutputs.CacheContents` | components/orbitcloud_graviton/az_lib/types.py:136-140 | after any run the keys are the stacks asked for, each with the reference of its first call |
| `StackOutputs.RunKeepsCacheOk` | components/orbitcloud_graviton/az_lib/types.py:136-140 | after any run each key holds a reference to that stack whose name parses back to the key |
| `StackOutputs.NamesDistinct` | components/orbitcloud_graviton/az_lib/types.py:139-140 | references cached under different keys have different resource names |
| `Durations.FindTokenIs` | components/orbitcloud_graviton/pulumi_lib/types.py:57 | the token found is the whole digit and letter runs around the first place where a digit meets a letter |
| `Durations.NothingFound` | components/orbitcloud_graviton/pulumi_lib/types.py:57-60 | nothing is found exactly when no digit is followed by a letter |
| `Durations.TextMeans` | components/orbitcloud_graviton/pulumi_lib/types.py:68-101 | the token in a text decides: that many units if the unit is allowed, an error otherwise; leading zeros and surrounding text do not matter |
| `Durations.AcceptedExactly` | components/orbitcloud_graviton/pulumi_lib/types.py:49-101 | a text is accepted as a duration exactly when its token says so, and has no token exactly when no digit is followed by a letter |
| `Durations.WrittenMeans` | components/orbitcloud_graviton/pulumi_lib/types.py:68-101 | a printed number and an allowed unit mean exactly that many units |
| `Text.ParseConcat` | components/orbitcloud_graviton/pulumi_lib/types.py:86 | reading digits as a number: digits in front count ten times as much for every digit behind them |
| `Durations.UnitTable` | components/orbitcloud_graviton/pulumi_lib/types.py:86-99 | the seconds of every kind of unit, for any text with its token; any other unit is refused |
| `Durations.RotationBound` | components/orbitcloud_graviton/pulumi_lib/types.py:125-130 | the chosen period is at most the duration and misses it by less than one unit, so more than half of it; it is exact exactly for multiples of the unit |
| `Durations.RotationWritten` | components/orbitcloud_graviton/pulumi_lib/types.py:125-130 | the chosen unit is the largest listed one that fits |
| `Durations.RotationOfText` | components/orbitcloud_graviton/pulumi_lib/types.py:104-130 | for every accepted text the seconds fallback is reached only for zero, and otherwise P <= duration < 2P |
| `Durations.YearsRotation` | components/orbitcloud_graviton/pulumi_lib/types.py:98-99 | `1y` and `1years` rotate by 12 months and n years by the whole 365-day years in 364n days |
| `Ports.IsPortMeaning` | components/orbitcloud_graviton/az_network/helpers.py:67-102 | accepts exactly `*`, a port in 1..65535, or a range a-b with 1 <= a <= b <= 65535 |
| `Ports.NamesOne` | components/orbitcloud_graviton/az_network/helpers.py:67-102 | an accepted port names one set of ports |
| `Ports.PrintedNamesSame` | components/orbitcloud_graviton/az_network/firewall.py:531-537 | a printed port is accepted again and names the same ports |
| `Ports.Nameable` | components/orbitcloud_graviton/az_network/helpers.py:67-102 | exactly all ports and the ranges within 1..65535 can be named |
| `Firewall.NetworkRule.Validate` | components/orbitcloud_graviton/az_network/firewall.py:57-139 | accepts exactly the acceptable rules, leaves the port field a list of the same ports, and what is emitted for the accepted object names these ports in order |
| `Firewall.Rules` | components/orbitcloud_graviton/az_network/firewall.py:510-596 | one emitted rule per configured rule, in order, each conveying name, description, protocols, ports, groups, names and addresses; nothing for an empty list |
| `Firewall.EmittedPorts` | components/orbitcloud_graviton/az_network/firewall.py:531-537 | the texts emitted for accepted ports are accepted again and name the same sets in the same order |
| `Firewall.EmittedAddresses` | components/orbitcloud_graviton/az_network/firewall.py:546-552 | list addresses are printed one by one; a single network is emitted as exactly its addresses; a single text as itself only when it has one character |
| `Firewall.AddressPrints` | components/orbitcloud_graviton/az_network/firewall.py:546-552 | a listed network is printed as four octets and a prefix length that make up its base address and prefix |
| `Firewall.DestinationEmitted` | components/orbitcloud_graviton/az_network/firewall.py:546-558 | the emitted fields say the destination of an accepted rule exactly when it is not given by service tags, an empty list, or a single text other than of one character |
| `Firewall.TextDestinationLost` | components/orbitcloud_graviton/az_network/firewall.py:550-552 | `10.0.0.0/8` given as one text is emitted as ten texts |
| `FirewallPolicy.FindRepeat` | components/orbitcloud_graviton/az_network/firewall.py:287-294 | finds a repeated priority exactly when collection priorities are not distinct |
| `FirewallPolicy.ValidateFirewallConfig` | components/orbitcloud_graviton/az_network/firewall.py:256-296 | accepts exactly when the SKU rules hold, URLs are used only with Premium, and group and collection priorities are distinct; a rejection names the first check that fails |
| `FirewallPolicy.RuleCollections` | components/orbitcloud_graviton/az_network/firewall.py:472-508 | each collection is emitted with its header and its rules in order, as NAT exactly for DNAT |
| `FirewallPolicy.RuleCollectionGroups` | components/orbitcloud_graviton/az_network/firewall.py:455-470 | each emitted group depends on its predecessor and on nothing else, and carries its collections |
| `FirewallPolicy.OnlyOrder` | components/orbitcloud_graviton/az_network/firewall.py:455-470 | the configured order is the only creation order that respects the dependencies |
| `FirewallPolicy.ConfiguredOrder` | components/orbitcloud_graviton/az_network/firewall.py:455-470 | the configured order does respect them |
| `Workload.ContainerApp.constructor` | components/orbitcloud_graviton/az_app/container_app.py:138-139 | an empty list is replaced by a fresh one, otherwise the given object is taken; the registry secret goes to whichever was taken |
| `Workload.CollectDependencies` | bases/orbitcloud_graviton/app_workload/app_workload_base.py:78-152 | the dependency loops grow both lists by each contribution in turn |
| `Workload.DeployOne` | bases/orbitcloud_graviton/app_workload/app_workload_base.py:158-172 | one app: what it is created with, what stays in the shared list, and what its own permission list becomes |
| `Workload.DeployAll` | bases/orbitcloud_graviton/app_workload/app_workload_base.py:157-189 | the loops create exactly what the value-level run says |
| `Workload.Deploy` | bases/orbitcloud_graviton/app_workload/app_workload_base.py:69-189 | each app or job gets its own permissions followed by the contributions of all dependencies in order, and as secrets those contributions, what earlier ones left behind, its own and its registry secret |
| `Workload.ContributionsInOrder` | bases/orbitcloud_graviton/app_workload/app_workload_base.py:78-152 | the lists grown by the dependency loops are exactly the contributions, each at the place after the earlier ones |
| `Workload.ContributionReaches` | bases/orbitcloud_graviton/app_workload/app_workload_base.py:157-189 | every permission and secret of every dependency reaches every app |
| `Workload.CreatedHas` | bases/orbitcloud_graviton/app_workload/app_workload_base.py:162-169 | each one's permissions are exactly its own followed by the dependency permissions |
| `Workload.OwnAndDependencySecrets` | bases/orbitcloud_graviton/app_workload/app_workload_base.py:158-169 | each one's secrets are exactly the dependency secrets, what the earlier ones left behind in order, its own and its registry secret |
| `Workload.SharedIs` | components/orbitcloud_graviton/az_app/container_app.py:138-139 | what an app leaves behind is its own secrets, and its registry secret unless the list was still empty |
| `Workload.IsolatedExactly` | components/orbitcloud_graviton/az_app/container_app.py:217-230 | an app gets nothing from earlier ones exactly when those leave nothing behind |
| `Workload.RegistryKeyCount` | components/orbitcloud_graviton/az_app/container_app.py:224-229 | how many secrets each app gets under the registry key |
| `Workload.RegistryKeyOnce` | components/orbitcloud_graviton/az_app/container_app.py:224-229 | exactly one if and only if every earlier app with a registry came while no secret was configured |
| `Workload.RegistryKeyTwice` | components/orbitcloud_graviton/az_app/container_app.py:224-229 | two apps with registries behind one dependency secret: the second gets the key twice |
| `Workload.SecretInherited` | bases/orbitcloud_graviton/app_workload/app_workload_base.py:158-169 | an app without secrets is created with the secret of the app before it |
| `OidcSubjects.GitHubCredentials.Credentials` | components/orbitcloud_graviton/entra/oidc_providers.py:125-154 | for each repository in turn one credential per environment, branch and tag of the fields and for pull requests, with that subject and named after it; rewriting absent lists in place changes no later answer |
| `OidcSubjects.SubjectCount` | components/orbitcloud_graviton/entra/oidc_providers.py:129-142 | repositories times environments plus branches plus tags plus pull request |
| `OidcSubjects.SubjectsDistinctExactly` | components/orbitcloud_graviton/entra/oidc_providers.py:130-142 | for any configuration the subjects are distinct exactly when there are none, or repositories and each list are distinct and no repository continues another into one of its endings |
| `OidcSubjects.SubjectsDistinct` | components/orbitcloud_graviton/entra/oidc_providers.py:130-142 | for colon-free repositories exactly when there are none, or repositories and each list are distinct |
| `OidcSubjects.NamesDistinctExactly` | components/orbitcloud_graviton/entra/oidc_providers.py:144-152 | for any configuration the credential names are distinct exactly when the same holds up to separators and case |
| `OidcSubjects.OneRepositoryNames` | components/orbitcloud_graviton/entra/oidc_providers.py:144-152 | for one repository exactly when each list is distinct up to separators and case |
| `OidcSubjects.BranchNamesCollide` | components/orbitcloud_graviton/entra/oidc_providers.py:144-152 | branches `a/b` and `a-b` share a name |
| `OidcSubjects.RepositoryNamesCollide` | components/orbitcloud_graviton/entra/oidc_providers.py:144-152 | a repository `r-environment` shares names with `r` although all subjects differ |

## Left out

- Pulumi resource construction, exports, API calls, YAML and file reading, schema generation: foreign calls.
- Ipv4.MakeNetwork: takes an address and a prefix length; the CIDR form of the text, its parsing and the `is_private` test of `is_private_network` and `is_public_network` are not modelled.
- Parsing of addresses for `is_public_ip`: the version, number and prefix length are given.
- Parsing of `regions.yaml`; the service files are given without it.
- `get_prefix` version stripping: class and stem identify the module path here.
- `resource_meta` writing `pulumi_resource` into the shared tree: it touches no naming record.
- Names for stack outputs not yet known.
- IndexAgreement.FileKeysDistinct: stated for class names of letters and digits, which class names are here; with underscores the form of a name does not show which underscores were added.
- The unused `max_length`: both namers ignore it.
- `get_resource_id`, `Output` arguments and `SecretStr` wrappers: dispatch only.
- Fixed-width and newline effects: non-ASCII case folding, newlines in regular expressions, `timedelta` overflow.
- `ApplicationRule` and `ProtocolPort` validators, `validate_apps`, `validate_http_routes`, the GitHub parameter count check: single-branch checks.
- The priority range 100..65000 that the field types of firewall collections check.
- Emission of service tags in `_rules`: the code emits none.
- Firewall rules are values when they are emitted: their port fields are not written after validation.
- The `_ignores`, template, ingress and volume parts of `ContainerApp`, and `app_deps`.
- Workload.Deploy: requires that no two configurations share a permission list object, as configurations parsed from text never do.
- VnetNsgs.UnsharedGroups: requires that no rule object occurs twice; VnetNsgs.GroupCompiled and VnetNsgs.SharedNumber are the statements with sharing.
- Peerings, route tables, IP groups, Key Vault, SQL, Front Door and the other components that map a configuration to resource arguments.
