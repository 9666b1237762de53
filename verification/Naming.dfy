/**
 The two resource namers.  `resource_namer` (v1) and `AzureResourceMetadata.autoname` (v2) build
 the same kind of name along different split, case and join paths; here is exactly when they
 agree.
 */
module Naming {
  import opened Wrappers
  import opened Text

  /** The naming rule both namers read; `max_length` is recorded and used by neither. */
  datatype NamingRule = NamingRule(prefix: string, alphanumeric: bool, lowercase: bool, maxLength: Option<int>)

  datatype Region = Region(name: string, abbr: string)

  datatype Stack = Stack(workload: string, env: string, location: string)

  datatype NameError = UnknownRegion | NoAbbreviation

  /** `location_abbr`: an unknown region and an empty abbreviation are both errors. */
  function LocationAbbr(regions: map<string, Region>, location: string): Result<string, NameError> {
    if location !in regions then Err(UnknownRegion)
    else if regions[location].abbr == "" then Err(NoAbbreviation)
    else Ok(regions[location].abbr)
  }

  const HYPHEN: set<char> := {'-'}

  /** The separators of `fmt_name`: ASCII whitespace and `-`, `.`, `_`, `/`, `:`. */
  const SEPARATORS: set<char> := HYPHEN + FOREIGN

  /** The separators besides the hyphen. */
  const FOREIGN: set<char> :=
    {' ', '\t', '\n', '\r', '\U{0B}', '\U{0C}', '\U{1C}', '\U{1D}', '\U{1E}', '\U{1F}', '.', '_', '/', ':'}

  function MapSeq(parts: seq<string>, f: string -> string): (r: seq<string>)
    ensures |r| == |parts| && forall i :: 0 <= i < |parts| ==> r[i] == f(parts[i])
  {
    seq(|parts|, i requires 0 <= i < |parts| => f(parts[i]))
  }

  datatype Case = LowerCase | TitleCase

  function ApplyCase(c: Case, s: string): string { if c == TitleCase then Title(s) else Lower(s) }

  /** `fmt_name` on one string: split at the separators, change case, join. */
  function FmtOne(s: string, sep: string, c: Case): string {
    Join(MapSeq(Split(s, SEPARATORS), p => ApplyCase(c, p)), sep)
  }

  /** `fmt_name` on a list of strings. */
  function FmtParts(parts: seq<string>, sep: string, c: Case): string {
    Join(MapSeq(parts, p => FmtOne(p, sep, c)), sep)
  }

  /** The workload of an alphanumeric v1 name: the hyphen-separated words, title-cased and joined. */
  function TitleWords(workload: string): string {
    if '-' in workload
    then Join(MapSeq(Split(workload, HYPHEN), w => Title(w)), "")
    else Title(workload)
  }

  /** `resource_namer`, after the prefix lookup. */
  function ResourceNamer(rule: NamingRule, workload: string, env: string, regions: map<string, Region>,
                         location: string, instance: string): Result<string, NameError>
  {
    match LocationAbbr(regions, location)
    case Err(e) => Err(e)
    case Ok(abbr) => Ok(V1Name(rule, workload, env, abbr, instance))
  }

  function V1Name(rule: NamingRule, workload: string, env: string, abbr: string, instance: string): string {
    var name :=
      if rule.alphanumeric then
        Join(MapSeq([rule.prefix, TitleWords(workload), env, abbr, instance], p => Title(p)), "")
      else
        Join([rule.prefix, workload, env, abbr, instance], "-");
    if rule.lowercase then Lower(name) else name
  }

  /** `AzureStack.name_for`: an absent or empty workload falls back to the stack's. */
  function NameFor(rule: NamingRule, stack: Stack, workload: Option<string>, regions: map<string, Region>,
                   instance: string): Result<string, NameError>
  {
    ResourceNamer(rule, Fallback(workload, stack), stack.env, regions, stack.location, instance)
  }

  function Fallback(workload: Option<string>, stack: Stack): string {
    if workload.GetOr("") == "" then stack.workload else workload.value
  }

  /** `autoname`; the separator is not used for alphanumeric names. */
  function Autoname(rule: NamingRule, stack: Stack, workload: Option<string>, regions: map<string, Region>,
                    separator: Option<string>, instance: Option<string>): Result<string, NameError>
  {
    var w := Fallback(workload, stack);
    match LocationAbbr(regions, stack.location)
    case Err(e) => Err(e)
    case Ok(abbr) =>
      var name := if rule.alphanumeric then FmtOne(w, "", TitleCase) else w;
      var c := if rule.alphanumeric && !rule.lowercase then TitleCase else LowerCase;
      var sep := if rule.alphanumeric then "" else separator.GetOr("");
      Ok(FmtParts([rule.prefix, name, stack.env, abbr, instance.GetOr("")], sep, c))
  }

  // ---------------------------------------------------------------- when the namers agree

  const UPPER: set<char> := set c: char | 'A' <= c <= 'Z'

  /**
   A test on the characters of the five elements.  An alphanumeric name needs everything but the
   workload free of separators; any name needs the elements free of separators other than the
   hyphen; a name that is neither alphanumeric nor lower-case needs lower-case elements.
   */
  predicate Compatible(rule: NamingRule, workload: string, env: string, abbr: string, instance: string) {
    if rule.alphanumeric then
      FreeOf(workload, FOREIGN) && AllFreeOf([rule.prefix, env, abbr, instance], SEPARATORS)
    else
      var elements := [rule.prefix, workload, env, abbr, instance];
      AllFreeOf(elements, FOREIGN) && (rule.lowercase || AllFreeOf(elements, UPPER))
  }

  lemma {:induction false} JoinLower(parts: seq<string>, sep: string)
    requires Lower(sep) == sep
    ensures Join(MapSeq(parts, p => Lower(p)), sep) == Lower(Join(parts, sep))
  {
    if |parts| > 1 {
      JoinLower(parts[1..], sep);
      assert MapSeq(parts, p => Lower(p))[1..] == MapSeq(parts[1..], p => Lower(p));
      LowerConcat(parts[0] + sep, Join(parts[1..], sep));
      LowerConcat(parts[0], sep);
    }
  }

  /** `fmt_name` with hyphens and lower case turns every separator into a hyphen. */
  lemma FmtHyphen(s: string)
    ensures FmtOne(s, "-", LowerCase) == Lower(Replace(s, SEPARATORS, '-'))
  {
    var pieces := Split(s, SEPARATORS);
    assert MapSeq(pieces, p => ApplyCase(LowerCase, p)) == MapSeq(pieces, p => Lower(p));
    JoinLower(pieces, "-");
    JoinSplitReplaces(s, SEPARATORS, '-');
  }

  /** A hyphen is one of the separators, so it is turned into the joining one. */
  lemma FmtConcat(a: string, b: string, sep: string, c: Case)
    ensures FmtOne(a + "-" + b, sep, c) == FmtOne(a, sep, c) + sep + FmtOne(b, sep, c)
  {
    var x, y := Split(a, SEPARATORS), Split(b, SEPARATORS);
    SplitConcat(a, '-', b, SEPARATORS);
    CasedConcat(x, y, sep, c);
  }

  lemma CasedConcat(x: seq<string>, y: seq<string>, sep: string, c: Case)
    requires x != [] && y != []
    ensures Join(MapSeq(x + y, p => ApplyCase(c, p)), sep)
            == Join(MapSeq(x, p => ApplyCase(c, p)), sep) + sep + Join(MapSeq(y, p => ApplyCase(c, p)), sep)
  {
    var f := (p: string) => ApplyCase(c, p);
    assert MapSeq(x + y, f) == MapSeq(x, f) + MapSeq(y, f);
    JoinConcat(MapSeq(x, f), MapSeq(y, f), sep);
  }

  lemma FmtPartsTail(parts: seq<string>, sep: string, c: Case)
    requires |parts| > 1
    ensures FmtParts(parts, sep, c) == FmtOne(parts[0], sep, c) + sep + FmtParts(parts[1..], sep, c)
  {
    var f := (p: string) => FmtOne(p, sep, c);
    assert MapSeq(parts, f)[1..] == MapSeq(parts[1..], f);
  }

  /** On a list, `fmt_name` works as on the parts joined by hyphens. */
  lemma {:induction false} FmtPartsIsOne(parts: seq<string>, sep: string, c: Case)
    requires parts != []
    ensures FmtParts(parts, sep, c) == FmtOne(Join(parts, "-"), sep, c)
  {
    if |parts| > 1 {
      FmtPartsIsOne(parts[1..], sep, c);
      FmtPartsTail(parts, sep, c);
      FmtConcat(parts[0], Join(parts[1..], "-"), sep, c);
    }
  }

  lemma FmtLength(s: string, sep: string)
    ensures |FmtOne(s, sep, LowerCase)| == |s| + (|Split(s, SEPARATORS)| - 1) * (|sep| - 1)
  {
    var pieces := Split(s, SEPARATORS);
    JoinLengthWith(pieces, MapSeq(pieces, p => ApplyCase(LowerCase, p)), sep);
    JoinSplitReplaces(s, SEPARATORS, '-');
  }

  /** A list formatted with another separator than the hyphen never gives the hyphenated text. */
  lemma SeparatorShows(elements: seq<string>, sep: string)
    requires |elements| > 1 && sep != "-"
    ensures FmtParts(elements, sep, LowerCase) != Join(elements, "-")
    ensures FmtParts(elements, sep, LowerCase) != Lower(Join(elements, "-"))
  {
    if |sep| == 1 {
      FirstJoint(elements, sep);
    } else {
      LengthShows(elements, sep);
    }
  }

  lemma LengthShows(elements: seq<string>, sep: string)
    requires |elements| > 1 && |sep| != 1
    ensures |FmtParts(elements, sep, LowerCase)| != |Join(elements, "-")|
  {
    FmtPartsIsOne(elements, sep, LowerCase);
    FmtLength(Join(elements, "-"), sep);
    ManyPieces(elements);
    NotZero(|Split(Join(elements, "-"), SEPARATORS)| - 1, |sep| - 1);
  }

  /** The first joint is at the same place and shows the separator. */
  lemma FirstJoint(elements: seq<string>, sep: string)
    requires |elements| > 1 && |sep| == 1
    ensures var n := |elements[0]|;
            && n < |FmtParts(elements, sep, LowerCase)| && n < |Join(elements, "-")|
            && [FmtParts(elements, sep, LowerCase)[n]] == sep
            && Join(elements, "-")[n] == Lower(Join(elements, "-"))[n] == '-'
  {
    var first, rest := FmtOne(elements[0], sep, LowerCase), FmtParts(elements[1..], sep, LowerCase);
    FmtLength(elements[0], sep);
    FmtPartsTail(elements, sep, LowerCase);
    assert (first + sep + rest)[|first|] == sep[0];
    assert (elements[0] + "-" + Join(elements[1..], "-"))[|elements[0]|] == '-';
  }

  lemma ManyPieces(elements: seq<string>)
    requires |elements| > 1
    ensures |Split(Join(elements, "-"), SEPARATORS)| > 1
  {
    SplitConcat(elements[0], '-', Join(elements[1..], "-"), SEPARATORS);
  }

  lemma NotZero(a: int, b: int)
    ensures a != 0 && b != 0 ==> a * b != 0
  {}

  /** Replacing separators and lowering leaves a string alone exactly on hyphenated lower case. */
  lemma ReplaceKeeps(s: string)
    ensures Lower(Replace(s, SEPARATORS, '-')) == Lower(s) <==> FreeOf(s, FOREIGN)
    ensures Lower(Replace(s, SEPARATORS, '-')) == s <==> FreeOf(s, FOREIGN) && FreeOf(s, UPPER)
  {
    var t := Replace(s, SEPARATORS, '-');
    forall i | 0 <= i < |s|
      ensures LowerChar(t[i]) == LowerChar(s[i]) <==> s[i] !in FOREIGN
      ensures LowerChar(t[i]) == s[i] <==> s[i] !in FOREIGN && s[i] !in UPPER
    {
    }
    if !FreeOf(s, FOREIGN) {
      var i :| 0 <= i < |s| && s[i] in FOREIGN;
      assert Lower(t)[i] != Lower(s)[i];
    }
    if !FreeOf(s, UPPER) {
      var i :| 0 <= i < |s| && s[i] in UPPER;
      assert Lower(t)[i] != s[i];
    }
  }

  /** Names with hyphens: agreement is a matter of the separator and the characters of the elements. */
  lemma HyphenatedAgree(rule: NamingRule, elements: seq<string>, sep: string)
    requires |elements| > 1
    ensures (if rule.lowercase then Lower(Join(elements, "-")) else Join(elements, "-"))
            == FmtParts(elements, sep, LowerCase)
            <==> sep == "-" && AllFreeOf(elements, FOREIGN) && (rule.lowercase || AllFreeOf(elements, UPPER))
  {
    if sep == "-" {
      FmtPartsIsOne(elements, sep, LowerCase);
      FmtHyphen(Join(elements, "-"));
      ReplaceKeeps(Join(elements, "-"));
      HyphenatedFree(elements);
    } else {
      SeparatorShows(elements, sep);
    }
  }

  /** Hyphens between the elements bring in neither a foreign separator nor an upper-case letter. */
  lemma HyphenatedFree(elements: seq<string>)
    requires elements != []
    ensures FreeOf(Join(elements, "-"), FOREIGN) <==> AllFreeOf(elements, FOREIGN)
    ensures FreeOf(Join(elements, "-"), UPPER) <==> AllFreeOf(elements, UPPER)
  {
    JoinFree(elements, "-", FOREIGN);
    JoinFree(elements, "-", UPPER);
  }

  // ---------------------------------------------------------------- alphanumeric names

  /** Title-casing the pieces of a string changes only the case of their concatenation. */
  lemma {:induction false} LowerOfTitled(parts: seq<string>)
    ensures Lower(Join(MapSeq(parts, p => Title(p)), "")) == Lower(Join(parts, ""))
  {
    if |parts| >= 1 {
      LowerTitle(parts[0]);
    }
    if |parts| > 1 {
      var titled := MapSeq(parts, p => Title(p));
      LowerOfTitled(parts[1..]);
      assert titled[1..] == MapSeq(parts[1..], p => Title(p));
      LowerConcat(titled[0] + "", Join(titled[1..], ""));
      LowerConcat(parts[0] + "", Join(parts[1..], ""));
      assert titled[0] + "" == titled[0] && parts[0] + "" == parts[0];
    }
  }

  lemma TitleWordsCase(w: string)
    ensures Lower(TitleWords(w)) == Lower(Without(w, HYPHEN))
  {
    LowerOfTitled(Split(w, HYPHEN));
    JoinSplitDeletes(w, HYPHEN);
    if '-' !in w {
      assert FreeOf(w, HYPHEN);
      WithoutLength(w, HYPHEN);
      LowerTitle(w);
    }
  }

  lemma FmtTitleCase(s: string)
    ensures Lower(FmtOne(s, "", TitleCase)) == Lower(Without(s, SEPARATORS))
  {
    var pieces := Split(s, SEPARATORS);
    assert MapSeq(pieces, p => ApplyCase(TitleCase, p)) == MapSeq(pieces, p => Title(p));
    LowerOfTitled(pieces);
    JoinSplitDeletes(s, SEPARATORS);
  }

  lemma FmtLowerCase(s: string)
    ensures FmtOne(s, "", LowerCase) == Lower(Without(s, SEPARATORS))
  {
    var pieces := Split(s, SEPARATORS);
    assert MapSeq(pieces, p => ApplyCase(LowerCase, p)) == MapSeq(pieces, p => Lower(p));
    JoinLower(pieces, "");
    JoinSplitDeletes(s, SEPARATORS);
  }

  /** Without a separator to join with, `fmt_name` deletes the separators and changes case. */
  lemma FmtDeletes(s: string, c: Case)
    ensures |FmtOne(s, "", c)| == |Without(s, SEPARATORS)|
    ensures FreeOf(s, SEPARATORS) ==> FmtOne(s, "", c) == ApplyCase(c, s)
  {
    FmtTitleCase(s);
    FmtLowerCase(s);
    assert |Lower(FmtOne(s, "", TitleCase))| == |FmtOne(s, "", TitleCase)|;
    if FreeOf(s, SEPARATORS) {
      SplitFree(s, SEPARATORS);
      assert MapSeq([s], p => ApplyCase(c, p)) == [ApplyCase(c, s)];
    }
  }

  lemma SeparatorsUncased(c: char)
    ensures LowerChar(c) in SEPARATORS <==> c in SEPARATORS
  {}

  lemma FreeIgnoresCase(s: string, t: string)
    requires Lower(s) == Lower(t)
    ensures FreeOf(s, SEPARATORS) <==> FreeOf(t, SEPARATORS)
  {
    forall i | 0 <= i < |s|
      ensures s[i] in SEPARATORS <==> t[i] in SEPARATORS
    {
      assert LowerChar(s[i]) == Lower(s)[i] == Lower(t)[i] == LowerChar(t[i]);
      SeparatorsUncased(s[i]);
      SeparatorsUncased(t[i]);
    }
    assert |s| == |Lower(s)| == |t|;
  }

  lemma CaseOnly(c: Case, s: string, t: string)
    requires Lower(s) == Lower(t)
    ensures ApplyCase(c, s) == ApplyCase(c, t)
  {
    TitleIgnoresCase(s, t);
  }

  /** The workload goes through `fmt_name` twice in v2: once alone, once as a part of the name. */
  lemma FmtTwice(w: string, c: Case)
    ensures FmtOne(FmtOne(w, "", TitleCase), "", c) == ApplyCase(c, Without(w, SEPARATORS))
  {
    var once := FmtOne(w, "", TitleCase);
    FmtTitleCase(w);
    WithoutFree(w, SEPARATORS);
    FreeIgnoresCase(once, Without(w, SEPARATORS));
    FmtDeletes(once, c);
    CaseOnly(c, once, Without(w, SEPARATORS));
  }

  /** Deleting one class and then a larger one is deleting the larger one. */
  lemma {:induction false} WithoutTwice(s: string, some: set<char>, more: set<char>)
    requires some !! more
    ensures Without(Without(s, some), some + more) == Without(s, some + more)
    ensures FreeOf(Without(s, some), some + more) <==> FreeOf(s, more)
  {
    if s != "" {
      WithoutTwice(s[1..], some, more);
      FreeConcat([s[0]], s[1..], more);
      assert [s[0]] + s[1..] == s;
      assert FreeOf([s[0]], more) <==> s[0] !in more;
      if s[0] !in some {
        FreeConcat([s[0]], Without(s[1..], some), some + more);
        assert FreeOf([s[0]], some + more) <==> s[0] !in some + more;
      }
    }
  }

  /** Pieces that lose length under `fmt_name` show in the joined name. */
  lemma DeletedPartsShow(whole: seq<string>, c: Case, fmt: seq<string>)
    requires |fmt| == |whole|
    requires forall i :: 0 <= i < |whole| ==> |fmt[i]| == |Without(whole[i], SEPARATORS)|
    requires forall i :: 0 <= i < |whole| ==> FreeOf(whole[i], SEPARATORS) ==> fmt[i] == ApplyCase(c, whole[i])
    ensures Join(MapSeq(whole, p => ApplyCase(c, p)), "") == Join(fmt, "") <==> AllFreeOf(whole, SEPARATORS)
  {
    var cased := MapSeq(whole, p => ApplyCase(c, p));
    forall i | 0 <= i < |whole|
      ensures |fmt[i]| <= |cased[i]|
      ensures |fmt[i]| == |cased[i]| <==> FreeOf(whole[i], SEPARATORS)
    {
      WithoutLength(whole[i], SEPARATORS);
    }
    JoinLengths(cased, fmt);
    if AllFreeOf(whole, SEPARATORS) {
      assert cased == fmt;
    }
  }

  /** Names without hyphens: agreement means that v2 has no separator to delete. */
  lemma AlphanumericAgree(prefix: string, w: string, env: string, abbr: string, instance: string, lowercase: bool)
    ensures var v1 := Join(MapSeq([prefix, TitleWords(w), env, abbr, instance], p => Title(p)), "");
            var c := if lowercase then LowerCase else TitleCase;
            (if lowercase then Lower(v1) else v1)
            == FmtParts([prefix, FmtOne(w, "", TitleCase), env, abbr, instance], "", c)
            <==> FreeOf(w, FOREIGN) && AllFreeOf([prefix, env, abbr, instance], SEPARATORS)
  {
    var c := if lowercase then LowerCase else TitleCase;
    var whole := [prefix, Without(w, HYPHEN), env, abbr, instance];
    var given := [prefix, FmtOne(w, "", TitleCase), env, abbr, instance];
    var fmt := MapSeq(given, p => FmtOne(p, "", c));
    TitledName(prefix, w, env, abbr, instance, lowercase);
    forall i | 0 <= i < 5
      ensures |fmt[i]| == |Without(whole[i], SEPARATORS)|
      ensures FreeOf(whole[i], SEPARATORS) ==> fmt[i] == ApplyCase(c, whole[i])
    {
      if i == 1 {
        WorkloadPart(w, c);
      } else {
        FmtDeletes(whole[i], c);
      }
    }
    DeletedPartsShow(whole, c, fmt);
    ElementsFree(prefix, w, env, abbr, instance);
  }

  lemma WorkloadPart(w: string, c: Case)
    ensures var fmt := FmtOne(FmtOne(w, "", TitleCase), "", c);
            && |fmt| == |Without(Without(w, HYPHEN), SEPARATORS)|
            && (FreeOf(Without(w, HYPHEN), SEPARATORS) ==> fmt == ApplyCase(c, Without(w, HYPHEN)))
  {
    WithoutTwice(w, HYPHEN, FOREIGN);
    WithoutLength(Without(w, HYPHEN), SEPARATORS);
    FmtTwice(w, c);
  }

  lemma ElementsFree(prefix: string, w: string, env: string, abbr: string, instance: string)
    ensures AllFreeOf([prefix, Without(w, HYPHEN), env, abbr, instance], SEPARATORS)
            <==> FreeOf(w, FOREIGN) && AllFreeOf([prefix, env, abbr, instance], SEPARATORS)
  {
    WithoutTwice(w, HYPHEN, FOREIGN);
    InsertFree([prefix], Without(w, HYPHEN), [env, abbr, instance], SEPARATORS);
    assert [prefix] + [Without(w, HYPHEN)] + [env, abbr, instance] == [prefix, Without(w, HYPHEN), env, abbr, instance];
    assert [prefix] + [env, abbr, instance] == [prefix, env, abbr, instance];
  }

  lemma InsertFree(a: seq<string>, x: string, b: seq<string>, seps: set<char>)
    ensures AllFreeOf(a + [x] + b, seps) <==> FreeOf(x, seps) && AllFreeOf(a + b, seps)
  {
    var whole, others := a + [x] + b, a + b;
    assert forall i :: 0 <= i < |a| ==> whole[i] == others[i];
    assert forall i :: |a| <= i < |others| ==> whole[i + 1] == others[i];
    assert whole[|a|] == x;
    assert forall i :: |a| < i < |whole| ==> whole[i] == others[i - 1];
  }

  /** The v1 alphanumeric name is the case-changed concatenation, the workload without hyphens. */
  lemma TitledName(prefix: string, w: string, env: string, abbr: string, instance: string, lowercase: bool)
    ensures var v1 := Join(MapSeq([prefix, TitleWords(w), env, abbr, instance], p => Title(p)), "");
            var c := if lowercase then LowerCase else TitleCase;
            (if lowercase then Lower(v1) else v1)
            == Join(MapSeq([prefix, Without(w, HYPHEN), env, abbr, instance], p => ApplyCase(c, p)), "")
  {
    var parts := [prefix, TitleWords(w), env, abbr, instance];
    var whole := [prefix, Without(w, HYPHEN), env, abbr, instance];
    TitleWordsCase(w);
    TitleIgnoresCase(TitleWords(w), Without(w, HYPHEN));
    assert MapSeq(parts, p => Title(p)) == MapSeq(whole, p => Title(p));
    if lowercase {
      LowerOfTitled(whole);
      JoinLower(whole, "");
      assert MapSeq(whole, p => ApplyCase(LowerCase, p)) == MapSeq(whole, p => Lower(p));
    } else {
      assert MapSeq(whole, p => ApplyCase(TitleCase, p)) == MapSeq(whole, p => Title(p));
    }
  }

  // ---------------------------------------------------------------- the two namers

  /**
   The two namers give the same answer, name or error, exactly when the region has no
   abbreviation, or the elements pass the character test and a separator, where one is used, is
   the hyphen.
   */
  lemma NamersAgree(rule: NamingRule, stack: Stack, workload: Option<string>, regions: map<string, Region>,
                    separator: Option<string>, instance: string)
    ensures NameFor(rule, stack, workload, regions, instance)
            == Autoname(rule, stack, workload, regions, separator, Some(instance))
            <==> match LocationAbbr(regions, stack.location)
                 case Err(_) => true
                 case Ok(abbr) =>
                   && Compatible(rule, Fallback(workload, stack), stack.env, abbr, instance)
                   && (rule.alphanumeric || separator == Some("-"))
  {
    match LocationAbbr(regions, stack.location)
    case Err(_) =>
    case Ok(abbr) =>
      var w := Fallback(workload, stack);
      if rule.alphanumeric {
        AlphanumericAgree(rule.prefix, w, stack.env, abbr, instance, rule.lowercase);
      } else {
        HyphenatedAgree(rule, [rule.prefix, w, stack.env, abbr, instance], separator.GetOr(""));
      }
  }

  /** An upper-case environment is enough for two different names. */
  lemma NamersDiffer(rule: NamingRule, stack: Stack, regions: map<string, Region>)
    requires rule == NamingRule("vnet", false, false, None) && stack == Stack("app", "Prod", "westeurope")
    requires regions == map["westeurope" := Region("westeurope", "weu")]
    ensures NameFor(rule, stack, None, regions, "01") != Autoname(rule, stack, None, regions, Some("-"), Some("01"))
  {
    assert stack.env[0] in UPPER;
    assert !FreeOf(stack.env, UPPER);
    var elements := [rule.prefix, stack.workload, stack.env, "weu", "01"];
    assert elements[2] == stack.env;
    NamersAgree(rule, stack, None, regions, Some("-"), "01");
  }

  // ---------------------------------------------------------------- when two workloads share a name

  lemma FiveJoined(a: string, x: string, b: string, c: string, d: string, sep: string)
    ensures Join([a, x, b, c, d], sep) == (a + sep) + x + (sep + (b + sep + (c + sep + d)))
  {
    JoinCons(c, [d], sep);
    JoinCons(b, [c, d], sep);
    JoinCons(x, [b, c, d], sep);
    JoinCons(a, [x, b, c, d], sep);
    assert [c] + [d] == [c, d] && [b] + [c, d] == [b, c, d];
    assert [x] + [b, c, d] == [x, b, c, d] && [a] + [x, b, c, d] == [a, x, b, c, d];
  }

  lemma ApplyCaseTells(c: Case, x: string, y: string)
    ensures ApplyCase(c, x) == ApplyCase(c, y) <==> Lower(x) == Lower(y)
  {
    LowerTitle(x);
    LowerTitle(y);
    if Lower(x) == Lower(y) {
      TitleIgnoresCase(x, y);
    }
  }

  /** The pieces of a name being the same but for one, names are equal when that piece is. */
  lemma OtherPieces(a: string, x: string, y: string, b: string, c: string, d: string, sep: string)
    ensures Join([a, x, b, c, d], sep) == Join([a, y, b, c, d], sep) <==> x == y
    ensures Lower(Join([a, x, b, c, d], sep)) == Lower(Join([a, y, b, c, d], sep)) <==> Lower(x) == Lower(y)
  {
    var pre, post := a + sep, sep + (b + sep + (c + sep + d));
    FiveJoined(a, x, b, c, d, sep);
    FiveJoined(a, y, b, c, d, sep);
    Cancel(pre, x, y, post);
    Cancel(Lower(pre), Lower(x), Lower(y), Lower(post));
    LowerConcat(pre + x, post);
    LowerConcat(pre, x);
    LowerConcat(pre + y, post);
    LowerConcat(pre, y);
  }

  /** Workloads that `resource_namer` cannot tell apart. */
  predicate SameForV1(rule: NamingRule, w: string, v: string) {
    if rule.alphanumeric then Lower(Without(w, HYPHEN)) == Lower(Without(v, HYPHEN))
    else if rule.lowercase then Lower(w) == Lower(v)
    else w == v
  }

  /**
   Two workloads share a v1 name exactly when they are equal, up to case where the type is
   lower-cased, and up to case and hyphens where it is alphanumeric.
   */
  lemma ResourceNamerTells(rule: NamingRule, w: string, v: string, env: string, regions: map<string, Region>,
                           location: string, instance: string)
    ensures ResourceNamer(rule, w, env, regions, location, instance)
            == ResourceNamer(rule, v, env, regions, location, instance)
            <==> LocationAbbr(regions, location).Err? || SameForV1(rule, w, v)
  {
    match LocationAbbr(regions, location)
    case Err(_) =>
    case Ok(abbr) =>
      if rule.alphanumeric {
        AlphanumericTells(rule, w, v, env, abbr, instance);
      } else {
        OtherPieces(rule.prefix, w, v, env, abbr, instance, "-");
      }
  }

  lemma AlphanumericTells(rule: NamingRule, w: string, v: string, env: string, abbr: string, instance: string)
    requires rule.alphanumeric
    ensures V1Name(rule, w, env, abbr, instance) == V1Name(rule, v, env, abbr, instance)
            <==> Lower(Without(w, HYPHEN)) == Lower(Without(v, HYPHEN))
  {
    var c := if rule.lowercase then LowerCase else TitleCase;
    TitledName(rule.prefix, w, env, abbr, instance, rule.lowercase);
    TitledName(rule.prefix, v, env, abbr, instance, rule.lowercase);
    CasedPieces(rule.prefix, Without(w, HYPHEN), env, abbr, instance, c);
    CasedPieces(rule.prefix, Without(v, HYPHEN), env, abbr, instance, c);
    OtherPieces(ApplyCase(c, rule.prefix), ApplyCase(c, Without(w, HYPHEN)), ApplyCase(c, Without(v, HYPHEN)),
                ApplyCase(c, env), ApplyCase(c, abbr), ApplyCase(c, instance), "");
    ApplyCaseTells(c, Without(w, HYPHEN), Without(v, HYPHEN));
  }

  lemma CasedPieces(a: string, x: string, b: string, c: string, d: string, how: Case)
    ensures MapSeq([a, x, b, c, d], p => ApplyCase(how, p))
            == [ApplyCase(how, a), ApplyCase(how, x), ApplyCase(how, b), ApplyCase(how, c), ApplyCase(how, d)]
  {}

  /** Hyphens do not separate alphanumeric names: two workloads, one name. */
  lemma HyphenLost(rule: NamingRule, w: string, v: string, env: string, regions: map<string, Region>,
                   location: string, instance: string)
    requires rule.alphanumeric && w == "my-app" && v == "myapp"
    ensures w != v
    ensures ResourceNamer(rule, w, env, regions, location, instance)
            == ResourceNamer(rule, v, env, regions, location, instance)
  {
    var rest := Without("app", HYPHEN);
    assert w == "my" + "-" + "app" && v == "my" + "app";
    WithoutConcat("my" + "-", "app", HYPHEN);
    WithoutConcat("my", "-", HYPHEN);
    WithoutConcat("my", "app", HYPHEN);
    assert Without("-", HYPHEN) == "";
    ResourceNamerTells(rule, w, v, env, regions, location, instance);
  }

  /** Character by character: lower case, and the text `sep` for each separator. */
  function Spread(s: string, sep: string): string {
    if s == "" then ""
    else (if s[0] in SEPARATORS then sep else [LowerChar(s[0])]) + Spread(s[1..], sep)
  }

  /** Lower-casing the pieces commutes with the two ways `Split` extends its result. */
  lemma LowerGrow(c: char, rest: seq<string>)
    requires rest != []
    ensures var lowered := MapSeq(rest, p => ApplyCase(LowerCase, p));
            && MapSeq([""] + rest, p => ApplyCase(LowerCase, p)) == [""] + lowered
            && MapSeq([[c] + rest[0]] + rest[1..], p => ApplyCase(LowerCase, p))
               == [[LowerChar(c)] + lowered[0]] + lowered[1..]
  {
    LowerConcat([c], rest[0]);
    assert Lower([c]) == [LowerChar(c)];
    var pieces := [[c] + rest[0]] + rest[1..];
    assert forall i :: 1 <= i < |rest| ==> pieces[i] == rest[i];
  }

  lemma {:induction false} FmtSpreads(s: string, sep: string)
    ensures FmtOne(s, sep, LowerCase) == Spread(s, sep)
  {
    if s != "" {
      var rest := Split(s[1..], SEPARATORS);
      var lowered := MapSeq(rest, p => ApplyCase(LowerCase, p));
      FmtSpreads(s[1..], sep);
      LowerGrow(s[0], rest);
      JoinGrow(LowerChar(s[0]), lowered, sep);
    }
  }

  /** Workloads that `autoname` cannot tell apart. */
  predicate SameForV2(rule: NamingRule, sep: string, w: string, v: string) {
    if rule.alphanumeric then Lower(Without(w, SEPARATORS)) == Lower(Without(v, SEPARATORS))
    else Spread(w, sep) == Spread(v, sep)
  }

  /**
   Two workloads share a v2 name exactly when their `Spread` forms are the same, that is, lower
   case with the given separator text for each separator, and for alphanumeric types when they
   agree up to case and separators altogether.
   */
  lemma AutonameTells(rule: NamingRule, stack: Stack, w: Option<string>, v: Option<string>,
                      regions: map<string, Region>, separator: Option<string>, instance: Option<string>)
    ensures Autoname(rule, stack, w, regions, separator, instance)
            == Autoname(rule, stack, v, regions, separator, instance)
            <==> || LocationAbbr(regions, stack.location).Err?
                 || SameForV2(rule, separator.GetOr(""), Fallback(w, stack), Fallback(v, stack))
  {
    match LocationAbbr(regions, stack.location)
    case Err(_) =>
    case Ok(abbr) =>
      var x, y := Fallback(w, stack), Fallback(v, stack);
      var c := if rule.alphanumeric && !rule.lowercase then TitleCase else LowerCase;
      if rule.alphanumeric {
        FmtTwice(x, c);
        FmtTwice(y, c);
        FmtTells(rule.prefix, FmtOne(x, "", TitleCase), FmtOne(y, "", TitleCase), stack.env, abbr,
                 instance.GetOr(""), "", c);
        ApplyCaseTells(c, Without(x, SEPARATORS), Without(y, SEPARATORS));
      } else {
        FmtTells(rule.prefix, x, y, stack.env, abbr, instance.GetOr(""), separator.GetOr(""), c);
        FmtSpreads(x, separator.GetOr(""));
        FmtSpreads(y, separator.GetOr(""));
      }
  }

  /** With the default separator that is agreement up to the choice of separators and case. */
  lemma SpreadHyphen(w: string, v: string)
    ensures Spread(w, "-") == Spread(v, "-")
            <==> Lower(Replace(w, SEPARATORS, '-')) == Lower(Replace(v, SEPARATORS, '-'))
  {
    FmtSpreads(w, "-");
    FmtSpreads(v, "-");
    FmtHyphen(w);
    FmtHyphen(v);
  }

  lemma FmtTells(a: string, x: string, y: string, b: string, c: string, d: string, sep: string, how: Case)
    ensures FmtParts([a, x, b, c, d], sep, how) == FmtParts([a, y, b, c, d], sep, how)
            <==> FmtOne(x, sep, how) == FmtOne(y, sep, how)
  {
    var f := (p: string) => FmtOne(p, sep, how);
    assert MapSeq([a, x, b, c, d], f) == [f(a), f(x), f(b), f(c), f(d)];
    assert MapSeq([a, y, b, c, d], f) == [f(a), f(y), f(b), f(c), f(d)];
    OtherPieces(f(a), f(x), f(y), f(b), f(c), f(d), sep);
  }

  // ---------------------------------------------------------------- the names, written out

  /**
   Character by character: characters of `seps` are dropped, a character directly behind a letter
   is lower-cased, any other is upper-cased.
   */
  function Capitalised(s: string, seps: set<char>, behindLetter: bool): string {
    if s == "" then ""
    else if s[0] in seps then Capitalised(s[1..], seps, false)
    else [if behindLetter then LowerChar(s[0]) else UpperChar(s[0])] + Capitalised(s[1..], seps, IsLetter(s[0]))
  }

  function Capital(s: string): string { Capitalised(s, {}, false) }

  lemma {:induction false} CapitalisedAt(s: string, behindLetter: bool)
    ensures |Capitalised(s, {}, behindLetter)| == |s|
    ensures forall i :: 0 <= i < |s| ==>
              Capitalised(s, {}, behindLetter)[i]
              == if (if i == 0 then behindLetter else IsLetter(s[i - 1])) then LowerChar(s[i]) else UpperChar(s[i])
  {
    if s != "" {
      CapitalisedAt(s[1..], IsLetter(s[0]));
      assert forall i :: 1 <= i < |s| ==> s[i] == s[1..][i - 1];
    }
  }

  lemma TitleCapitalises(s: string)
    ensures Title(s) == Capital(s)
  {
    CapitalisedAt(s, false);
  }

  /** A word of letters: its first letter in upper case, the others in lower case. */
  lemma CapitalWord(s: string)
    requires s != "" && AllLetters(s)
    ensures Capital(s) == [UpperChar(s[0])] + Lower(s[1..])
  {
    CapitalisedAt(s, false);
    forall i | 1 <= i < |s|
      ensures Capital(s)[i] == Lower(s[1..])[i - 1]
    {
      assert IsLetter(s[i - 1]) && s[1..][i - 1] == s[i];
    }
  }

  /** The pieces of a text, the first of them possibly behind a letter. */
  lemma {:induction false} PiecesCapitalise(s: string, behindLetter: bool)
    ensures var pieces := Split(s, SEPARATORS);
            Join([Capitalised(pieces[0], {}, behindLetter)] + MapSeq(pieces[1..], p => Title(p)), "")
            == Capitalised(s, SEPARATORS, behindLetter)
  {
    if s != "" {
      var rest := Split(s[1..], SEPARATORS);
      var titled := MapSeq(rest[1..], p => Title(p));
      var next := s[0] !in SEPARATORS && IsLetter(s[0]);
      PiecesCapitalise(s[1..], next);
      var tail := [Capitalised(rest[0], {}, next)] + titled;
      if s[0] in SEPARATORS {
        TitleCapitalises(rest[0]);
        assert MapSeq(rest, p => Title(p)) == tail;
        JoinGrow(s[0], tail, "");
        assert "" + Join(tail, "") == Join(tail, "");
      } else {
        var c := if behindLetter then LowerChar(s[0]) else UpperChar(s[0]);
        assert ([s[0]] + rest[0])[1..] == rest[0];
        JoinGrow(c, tail, "");
      }
    }
  }

  lemma FmtCapitalises(s: string)
    ensures FmtOne(s, "", TitleCase) == Capitalised(s, SEPARATORS, false)
  {
    var pieces := Split(s, SEPARATORS);
    PiecesCapitalise(s, false);
    TitleCapitalises(pieces[0]);
    assert MapSeq(pieces, p => ApplyCase(TitleCase, p))
        == [Title(pieces[0])] + MapSeq(pieces[1..], p => Title(p));
  }

  /** The separators are ASCII white space and five characters. */
  lemma SeparatorsAre(c: char)
    ensures c in SEPARATORS <==>
              || c == '-' || c == '.' || c == '_' || c == '/' || c == ':'
              || c == ' ' || 9 <= c as int <= 13 || 28 <= c as int <= 31
  {}

  lemma FivePieces(a: string, x: string, b: string, c: string, d: string, sep: string)
    ensures Join([a, x, b, c, d], sep) == a + sep + x + sep + b + sep + c + sep + d
  {
    FiveJoined(a, x, b, c, d, sep);
  }

  lemma FiveTogether(a: string, x: string, b: string, c: string, d: string)
    ensures Join([a, x, b, c, d], "") == a + x + b + c + d
  {
    FivePieces(a, x, b, c, d, "");
    assert a + "" + x + "" + b + "" + c + "" + d == a + x + b + c + d;
  }

  lemma LowerFive(a: string, x: string, b: string, c: string, d: string)
    ensures Lower(a) + Lower(x) + Lower(b) + Lower(c) + Lower(d) == Lower(a + x + b + c + d)
  {}

  /** The v1 name: for alphanumeric types the elements one after the other, the workload without hyphens. */
  lemma V1Written(rule: NamingRule, w: string, env: string, regions: map<string, Region>, location: string,
                  instance: string)
    ensures var r := ResourceNamer(rule, w, env, regions, location, instance);
            if location !in regions then r == Err(UnknownRegion)
            else
              var abbr := regions[location].abbr;
              if abbr == "" then r == Err(NoAbbreviation)
              else if rule.alphanumeric && rule.lowercase then
                r == Ok(Lower(rule.prefix + Without(w, HYPHEN) + env + abbr + instance))
              else if rule.alphanumeric then
                r == Ok(Capital(rule.prefix) + Capital(Without(w, HYPHEN)) + Capital(env) + Capital(abbr)
                        + Capital(instance))
              else if rule.lowercase then
                r == Ok(Lower(rule.prefix + "-" + w + "-" + env + "-" + abbr + "-" + instance))
              else
                r == Ok(rule.prefix + "-" + w + "-" + env + "-" + abbr + "-" + instance)
  {
    if location in regions {
      var abbr := regions[location].abbr;
      if rule.alphanumeric {
        V1Together(rule, w, env, abbr, instance);
      } else {
        FivePieces(rule.prefix, w, env, abbr, instance, "-");
      }
    }
  }

  lemma V1Together(rule: NamingRule, w: string, env: string, abbr: string, instance: string)
    requires rule.alphanumeric
    ensures V1Name(rule, w, env, abbr, instance)
            == if rule.lowercase then Lower(rule.prefix + Without(w, HYPHEN) + env + abbr + instance)
               else Capital(rule.prefix) + Capital(Without(w, HYPHEN)) + Capital(env) + Capital(abbr)
                    + Capital(instance)
  {
    var x, c := Without(w, HYPHEN), if rule.lowercase then LowerCase else TitleCase;
    TitledName(rule.prefix, w, env, abbr, instance, rule.lowercase);
    CasedPieces(rule.prefix, x, env, abbr, instance, c);
    FiveTogether(ApplyCase(c, rule.prefix), ApplyCase(c, x), ApplyCase(c, env), ApplyCase(c, abbr),
                 ApplyCase(c, instance));
    if rule.lowercase {
      LowerFive(rule.prefix, x, env, abbr, instance);
    } else {
      TitleCapitalises(rule.prefix);
      TitleCapitalises(x);
      TitleCapitalises(env);
      TitleCapitalises(abbr);
      TitleCapitalises(instance);
    }
  }

  /**
   The v2 name: with a separator, every separator of an element becomes the given one; for
   alphanumeric types the elements one after the other, separators dropped.
   */
  lemma V2Written(rule: NamingRule, stack: Stack, workload: Option<string>, regions: map<string, Region>,
                  separator: Option<string>, instance: Option<string>)
    ensures var r := Autoname(rule, stack, workload, regions, separator, instance);
            var w := if workload == None || workload == Some("") then stack.workload else workload.value;
            var n := if instance == None then "" else instance.value;
            if stack.location !in regions then r == Err(UnknownRegion)
            else
              var abbr := regions[stack.location].abbr;
              if abbr == "" then r == Err(NoAbbreviation)
              else if rule.alphanumeric && rule.lowercase then
                r == Ok(Lower(Without(rule.prefix, SEPARATORS) + Without(w, SEPARATORS) + Without(stack.env, SEPARATORS)
                              + Without(abbr, SEPARATORS) + Without(n, SEPARATORS)))
              else if rule.alphanumeric then
                r == Ok(Capitalised(rule.prefix, SEPARATORS, false) + Capital(Without(w, SEPARATORS))
                        + Capitalised(stack.env, SEPARATORS, false) + Capitalised(abbr, SEPARATORS, false)
                        + Capitalised(n, SEPARATORS, false))
              else
                var sep := if separator == None then "" else separator.value;
                r == Ok(Spread(rule.prefix, sep) + sep + Spread(w, sep) + sep + Spread(stack.env, sep) + sep
                        + Spread(abbr, sep) + sep + Spread(n, sep))
  {
    if stack.location in regions {
      var w, n := Fallback(workload, stack), instance.GetOr("");
      var abbr := regions[stack.location].abbr;
      if rule.alphanumeric {
        V2Together(rule, w, stack.env, abbr, n);
      } else {
        V2Spread(rule.prefix, w, stack.env, abbr, n, separator.GetOr(""));
      }
    }
  }

  lemma FmtPieces(a: string, x: string, b: string, c: string, d: string, sep: string, how: Case)
    ensures FmtParts([a, x, b, c, d], sep, how)
            == Join([FmtOne(a, sep, how), FmtOne(x, sep, how), FmtOne(b, sep, how), FmtOne(c, sep, how),
                     FmtOne(d, sep, how)], sep)
  {
    var f := (p: string) => FmtOne(p, sep, how);
    assert MapSeq([a, x, b, c, d], f) == [f(a), f(x), f(b), f(c), f(d)];
  }

  lemma V2Spread(a: string, x: string, b: string, c: string, d: string, sep: string)
    ensures FmtParts([a, x, b, c, d], sep, LowerCase)
            == Spread(a, sep) + sep + Spread(x, sep) + sep + Spread(b, sep) + sep + Spread(c, sep) + sep
               + Spread(d, sep)
  {
    FmtPieces(a, x, b, c, d, sep, LowerCase);
    FmtSpreads(a, sep);
    FmtSpreads(x, sep);
    FmtSpreads(b, sep);
    FmtSpreads(c, sep);
    FmtSpreads(d, sep);
    FivePieces(Spread(a, sep), Spread(x, sep), Spread(b, sep), Spread(c, sep), Spread(d, sep), sep);
  }

  lemma V2Together(rule: NamingRule, w: string, env: string, abbr: string, n: string)
    requires rule.alphanumeric
    ensures FmtParts([rule.prefix, FmtOne(w, "", TitleCase), env, abbr, n], "",
                     if rule.lowercase then LowerCase else TitleCase)
            == if rule.lowercase then
                 Lower(Without(rule.prefix, SEPARATORS) + Without(w, SEPARATORS) + Without(env, SEPARATORS)
                       + Without(abbr, SEPARATORS) + Without(n, SEPARATORS))
               else
                 Capitalised(rule.prefix, SEPARATORS, false) + Capital(Without(w, SEPARATORS))
                 + Capitalised(env, SEPARATORS, false) + Capitalised(abbr, SEPARATORS, false)
                 + Capitalised(n, SEPARATORS, false)
  {
    var c := if rule.lowercase then LowerCase else TitleCase;
    var once := FmtOne(w, "", TitleCase);
    FmtPieces(rule.prefix, once, env, abbr, n, "", c);
    FmtTwice(w, c);
    FiveTogether(FmtOne(rule.prefix, "", c), FmtOne(once, "", c), FmtOne(env, "", c), FmtOne(abbr, "", c),
                 FmtOne(n, "", c));
    if rule.lowercase {
      FmtLowerCase(rule.prefix);
      FmtLowerCase(env);
      FmtLowerCase(abbr);
      FmtLowerCase(n);
      LowerFive(Without(rule.prefix, SEPARATORS), Without(w, SEPARATORS), Without(env, SEPARATORS),
                Without(abbr, SEPARATORS), Without(n, SEPARATORS));
    } else {
      FmtCapitalises(rule.prefix);
      FmtCapitalises(env);
      FmtCapitalises(abbr);
      FmtCapitalises(n);
      TitleCapitalises(Without(w, SEPARATORS));
    }
  }

  /** The namer of a stack: an absent or empty workload falls back to the stack's. */
  lemma NameForWritten(rule: NamingRule, stack: Stack, workload: Option<string>, regions: map<string, Region>,
                       instance: string)
    ensures NameFor(rule, stack, workload, regions, instance)
            == ResourceNamer(rule, if workload == None || workload == Some("") then stack.workload else workload.value,
                             stack.env, regions, stack.location, instance)
  {}
}
