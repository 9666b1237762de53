/**
 The flat index and the tree hold the same naming rules: nothing overwrites anything, file order
 does not matter, and the two namers fed from the two indexes give the same names.
 */
module IndexAgreement {
  import opened Wrappers
  import opened Text
  import opened Counting
  import opened Dicts
  import opened Naming
  import opened SnakeCase
  import opened Metadata

  // ---------------------------------------------------------------- what the paths determine

  predicate IsRandomPassword(stem: string, className: string) { stem == "random" && className == "RandomPassword" }

  lemma WebAppDerived()
    ensures DerivedPath("web", "WebApp") == "pulumi_azure_native.web.web_app"
  {
    DerivedFrom("web", "Web", "App", "WebApp", "web_app", "pulumi_azure_native.web.web_app");
  }

  lemma EventHubDerived()
    ensures DerivedPath("eventhub", "EventHub") == "pulumi_azure_native.eventhub.event_hub"
  {
    assert Lower("Event") == "event" && Lower("Hub") == "hub";
    DerivedFrom("eventhub", "Event", "Hub", "EventHub", "event_hub", "pulumi_azure_native.eventhub.event_hub");
  }

  lemma DerivedFrom(stem: string, w: string, v: string, className: string, snake: string, path: string)
    requires IsWord(w) && IsWord(v) && className == w + v && snake == Lower(w) + "_" + Lower(v)
    requires path == PACKAGE + stem + "." + snake
    ensures DerivedPath(stem, className) == path
  {
    TwoWords(w, v);
  }

  lemma TwoWords(w: string, v: string)
    requires IsWord(w) && IsWord(v)
    ensures PascalToSnake(w + v) == Lower(w) + "_" + Lower(v)
  {
    SnakeKeepsWords([w, v]);
    assert Concat([w, v]) == w + v by {
      assert [w, v][1..] == [v] && [v][1..] == [];
      assert Concat([v]) == v;
    }
    assert LowerAll([w, v])[1..] == [Lower(v)];
  }

  /**
   Every path but one is the derived path: two of the three overrides give the path that would
   have been derived anyway.
   */
  lemma PathShape(stem: string, className: string)
    requires !IsRandomPassword(stem, className)
    ensures ModulePath(stem, className) == DerivedPath(stem, className)
  {
    if stem == "web" && className == "WebApp" {
      WebAppDerived();
    } else if stem == "eventhub" && className == "EventHub" {
      EventHubDerived();
    } else {
      assert Override(stem, className) == None;
    }
  }

  /** The paths, written out: the lower-cased pieces of the class name with underscores between them. */
  lemma PathWritten(stem: string, pieces: seq<string>)
    requires AllPieces(pieces) && pieces != []
    ensures ModulePath(stem, Concat(pieces))
            == if stem == "random" && Concat(pieces) == "RandomPassword" then "pulumi_random.random_password"
               else "pulumi_azure_native." + stem + "." + Join(LowerAll(pieces), "_")
  {
    SnakeKeepsPieces(pieces);
    if !IsRandomPassword(stem, Concat(pieces)) {
      PathShape(stem, Concat(pieces));
    }
  }

  /** The eighth character tells the one other path apart. */
  lemma PathStart(stem: string, className: string)
    ensures |ModulePath(stem, className)| > 7
    ensures ModulePath(stem, className)[7] == 'r' <==> IsRandomPassword(stem, className)
  {}

  /** What precedes the first dot is determined by the whole. */
  lemma FirstPart(a: string, x: string, b: string, y: string)
    requires FreeOf(a, DOT) && FreeOf(b, DOT) && a + "." + x == b + "." + y
    ensures a == b && x == y
  {
    SplitConcat(a, '.', x, DOT);
    SplitConcat(b, '.', y, DOT);
    SplitFree(a, DOT);
    SplitFree(b, DOT);
    assert Split(a + "." + x, DOT)[0] == a && Split(b + "." + y, DOT)[0] == b;
    assert x == (a + "." + x)[|a| + 1..] && y == (b + "." + y)[|b| + 1..];
  }

  /** A module path tells which file it comes from, and the snake-case class name. */
  lemma PathTells(stem: string, className: string, stem': string, className': string)
    requires FreeOf(stem, DOT) && FreeOf(stem', DOT)
    requires ModulePath(stem, className) == ModulePath(stem', className')
    ensures stem == stem' && PascalToSnake(className) == PascalToSnake(className')
  {
    PathStart(stem, className);
    PathStart(stem', className');
    if !IsRandomPassword(stem, className) {
      PathShape(stem, className);
      PathShape(stem', className');
      DerivedTells(stem, PascalToSnake(className), stem', PascalToSnake(className'));
    }
  }

  lemma DerivedTells(a: string, x: string, b: string, y: string)
    requires FreeOf(a, DOT) && FreeOf(b, DOT)
    requires PACKAGE + a + "." + x == PACKAGE + b + "." + y
    ensures a == b && x == y
  {
    var s, t := a + "." + x, b + "." + y;
    assert PACKAGE + a + "." + x == PACKAGE + s && PACKAGE + b + "." + y == PACKAGE + t;
    assert s == (PACKAGE + s)[|PACKAGE|..] && t == (PACKAGE + t)[|PACKAGE|..];
    FirstPart(a, x, b, y);
  }

  // ---------------------------------------------------------------- where index entries come from

  predicate Listed(stem: string, resources: seq<(string, ResourceSchema)>, i: nat) {
    i < |resources| && (stem, resources[i].0) !in EXCLUDED
  }

  function V1Pair(stem: string, entry: (string, ResourceSchema)): (string, Record) {
    (ModulePath(stem, entry.0), NamingRecord(entry.1.naming))
  }

  lemma {:induction false} V1PairsFrom(stem: string, resources: seq<(string, ResourceSchema)>, pair: (string, Record))
    ensures pair in V1Pairs(stem, resources)
            <==> exists i: nat :: Listed(stem, resources, i) && pair == V1Pair(stem, resources[i])
  {
    if resources != [] {
      var n := |resources| - 1;
      V1PairsFrom(stem, resources[..n], pair);
      if pair in V1Pairs(stem, resources[..n]) {
        var i: nat :| Listed(stem, resources[..n], i) && pair == V1Pair(stem, resources[..n][i]);
        assert Listed(stem, resources, i) && resources[..n][i] == resources[i];
      } else if pair in V1Pairs(stem, resources) {
        assert Listed(stem, resources, n) && pair == V1Pair(stem, resources[n]);
      }
      if i: nat :| Listed(stem, resources, i) && pair == V1Pair(stem, resources[i]) {
        if i < n {
          assert Listed(stem, resources[..n], i) && resources[..n][i] == resources[i];
        }
      }
    }
  }

  lemma {:induction false} AllV1From(files: seq<ServiceFile>, pair: (string, Record))
    ensures pair in AllV1Pairs(files)
            <==> exists f :: f in files && pair in V1Pairs(f.stem, f.service.resources)
  {
    if files != [] {
      var n := |files| - 1;
      AllV1From(files[..n], pair);
      assert files == files[..n] + [files[n]];
    }
  }

  lemma {:induction false} V2From(files: seq<ServiceFile>, pair: (string, Namespace))
    ensures pair in V2Pairs(files)
            <==> exists f :: f in files && f.stem in V2_SERVICES && pair == (f.stem, BuildV2Namespace(f.service))
  {
    if files != [] {
      var n := |files| - 1;
      V2From(files[..n], pair);
      assert files == files[..n] + [files[n]];
    }
  }

  // ---------------------------------------------------------------- nothing is overwritten

  function Stems(files: seq<ServiceFile>): seq<string>
  {
    seq(|files|, i requires 0 <= i < |files| => files[i].stem)
  }

  /** Files of one directory: distinct stems, here without dots. */
  ghost predicate GoodStems(files: seq<ServiceFile>) {
    Distinct(Stems(files)) && AllFreeOf(Stems(files), DOT)
  }

  function FileKeys(f: ServiceFile): seq<string> { KeysOf(V1Pairs(f.stem, f.service.resources)) }

  lemma KeyOfPair<V>(pairs: seq<(string, V)>, key: string)
    ensures key in KeysOf(pairs) <==> exists p :: p in pairs && p.0 == key
  {
    if key in KeysOf(pairs) {
      var i :| 0 <= i < |pairs| && KeysOf(pairs)[i] == key;
      assert pairs[i] in pairs;
    }
    if p :| p in pairs && p.0 == key {
      var i :| 0 <= i < |pairs| && pairs[i] == p;
      assert KeysOf(pairs)[i] == key;
    }
  }

  /** Keys of different files differ. */
  lemma FilesApart(f: ServiceFile, g: ServiceFile, key: string)
    requires FreeOf(f.stem, DOT) && FreeOf(g.stem, DOT)
    requires key in FileKeys(f) && key in FileKeys(g)
    ensures f.stem == g.stem
  {
    var fp, gp := V1Pairs(f.stem, f.service.resources), V1Pairs(g.stem, g.service.resources);
    KeyOfPair(fp, key);
    KeyOfPair(gp, key);
    var p :| p in fp && p.0 == key;
    var q :| q in gp && q.0 == key;
    V1PairsFrom(f.stem, f.service.resources, p);
    V1PairsFrom(g.stem, g.service.resources, q);
    var i: nat :| Listed(f.stem, f.service.resources, i) && p == V1Pair(f.stem, f.service.resources[i]);
    var j: nat :| Listed(g.stem, g.service.resources, j) && q == V1Pair(g.stem, g.service.resources[j]);
    PathTells(f.stem, f.service.resources[i].0, g.stem, g.service.resources[j].0);
  }

  lemma GoodStemsPrefix(files: seq<ServiceFile>)
    requires files != [] && GoodStems(files)
    ensures GoodStems(files[..|files| - 1])
    ensures forall f :: f in files[..|files| - 1] ==> f.stem != files[|files| - 1].stem
    ensures forall f :: f in files ==> FreeOf(f.stem, DOT)
  {
    var n := |files| - 1;
    assert forall i :: 0 <= i < |files| ==> Stems(files)[i] == files[i].stem;
    assert forall i :: 0 <= i < n ==> Stems(files[..n])[i] == Stems(files)[i];
  }

  /** Over all files the keys are distinct exactly when they are distinct within each file. */
  lemma {:induction false} KeysDistinct(files: seq<ServiceFile>)
    requires GoodStems(files)
    ensures Distinct(KeysOf(AllV1Pairs(files))) <==> forall f :: f in files ==> Distinct(FileKeys(f))
  {
    if files != [] {
      var n := |files| - 1;
      var before, last := AllV1Pairs(files[..n]), V1Pairs(files[n].stem, files[n].service.resources);
      GoodStemsPrefix(files);
      KeysDistinct(files[..n]);
      assert KeysOf(before + last) == KeysOf(before) + KeysOf(last);
      DistinctConcat(KeysOf(before), KeysOf(last));
      assert files == files[..n] + [files[n]];
      forall key | key in KeysOf(before)
        ensures key !in KeysOf(last)
      {
        KeyOfPair(before, key);
        var p :| p in before && p.0 == key;
        AllV1From(files[..n], p);
        var f :| f in files[..n] && p in V1Pairs(f.stem, f.service.resources);
        KeyOfPair(V1Pairs(f.stem, f.service.resources), key);
        if key in KeysOf(last) {
          FilesApart(f, files[n], key);
          assert false;
        }
      }
    }
  }

  /** The classes of a file that the flat index lists. */
  function ListedClasses(stem: string, resources: seq<(string, ResourceSchema)>): seq<string> {
    if resources == [] then []
    else
      var n := |resources| - 1;
      ListedClasses(stem, resources[..n]) + (if (stem, resources[n].0) in EXCLUDED then [] else [resources[n].0])
  }

  lemma {:induction false} KeysOfClasses(stem: string, resources: seq<(string, ResourceSchema)>)
    ensures var keys, classes := KeysOf(V1Pairs(stem, resources)), ListedClasses(stem, resources);
            |keys| == |classes| && forall i :: 0 <= i < |keys| ==> keys[i] == ModulePath(stem, classes[i])
  {
    if resources != [] {
      var n := |resources| - 1;
      KeysOfClasses(stem, resources[..n]);
      assert KeysOf(V1Pairs(stem, resources[..n]) + [V1Pair(stem, resources[n])])
          == KeysOf(V1Pairs(stem, resources[..n])) + [V1Pair(stem, resources[n]).0];
      assert V1Pairs(stem, resources[..n]) + [] == V1Pairs(stem, resources[..n]);
    }
  }

  lemma {:induction false} ListedDistinct(stem: string, resources: seq<(string, ResourceSchema)>)
    requires Distinct(KeysOf(resources))
    ensures Distinct(ListedClasses(stem, resources))
    ensures forall c :: c in ListedClasses(stem, resources) ==> c in KeysOf(resources)
  {
    if resources != [] {
      var n := |resources| - 1;
      assert KeysOf(resources) == KeysOf(resources[..n]) + [resources[n].0];
      DistinctConcat(KeysOf(resources[..n]), [resources[n].0]);
      ListedDistinct(stem, resources[..n]);
      DistinctConcat(ListedClasses(stem, resources[..n]), [resources[n].0]);
      assert ListedClasses(stem, resources[..n]) + [] == ListedClasses(stem, resources[..n]);
    }
  }

  /** Two classes of one file get the same path: same shape, unless one of them is overridden. */
  predicate Clash(stem: string, a: string, b: string) {
    if IsRandomPassword(stem, a) || IsRandomPassword(stem, b) then a == b else SameShape(a, b)
  }

  predicate NoClash(stem: string, classes: seq<string>) {
    forall i, j :: 0 <= i < j < |classes| ==> !Clash(stem, classes[i], classes[j])
  }

  lemma PathsClash(stem: string, a: string, b: string)
    requires AllAlnum(a) && AllAlnum(b)
    ensures ModulePath(stem, a) == ModulePath(stem, b) <==> Clash(stem, a, b)
  {
    PathStart(stem, a);
    PathStart(stem, b);
    if !IsRandomPassword(stem, a) && !IsRandomPassword(stem, b) {
      var pre := PACKAGE + stem + ".";
      PathShape(stem, a);
      PathShape(stem, b);
      SnakeAgrees(a, b);
      assert (pre + PascalToSnake(a))[|pre|..] == PascalToSnake(a);
      assert (pre + PascalToSnake(b))[|pre|..] == PascalToSnake(b);
    }
  }

  /** The listed class names of a file are made of letters and digits. */
  predicate PlainNames(f: ServiceFile) {
    forall c :: c in ListedClasses(f.stem, f.service.resources) ==> AllAlnum(c)
  }

  /** The keys of a file are distinct exactly when no two of its class names clash. */
  lemma FileKeysDistinct(f: ServiceFile)
    requires PlainNames(f)
    ensures Distinct(FileKeys(f)) <==> NoClash(f.stem, ListedClasses(f.stem, f.service.resources))
  {
    var keys, classes := FileKeys(f), ListedClasses(f.stem, f.service.resources);
    KeysOfClasses(f.stem, f.service.resources);
    forall i, j | 0 <= i < j < |keys|
      ensures keys[i] == keys[j] <==> Clash(f.stem, classes[i], classes[j])
    {
      assert classes[i] in classes && classes[j] in classes;
      PathsClash(f.stem, classes[i], classes[j]);
    }
  }

  /** Class names that differ beyond case never overwrite each other. */
  lemma CaseNamesSuffice(f: ServiceFile)
    requires PlainNames(f)
    requires Distinct(MapSeq(ListedClasses(f.stem, f.service.resources), c => Lower(c)))
    ensures Distinct(FileKeys(f))
  {
    var classes := ListedClasses(f.stem, f.service.resources);
    var lowered := MapSeq(classes, c => Lower(c));
    forall i, j | 0 <= i < j < |classes|
      ensures !Clash(f.stem, classes[i], classes[j])
    {
      assert classes[i] in classes && classes[j] in classes;
      assert lowered[i] != lowered[j];
      CaseTells(classes[i], classes[j]);
      SnakeAgrees(classes[i], classes[j]);
    }
    FileKeysDistinct(f);
  }

  /** Neither do distinct class names whose capitals stand apart, such as names made of words. */
  lemma WordNamesSuffice(f: ServiceFile)
    requires Distinct(KeysOf(f.service.resources))
    requires forall c :: c in ListedClasses(f.stem, f.service.resources) ==> CapitalsApart(c)
    ensures Distinct(FileKeys(f))
  {
    var classes := ListedClasses(f.stem, f.service.resources);
    ListedDistinct(f.stem, f.service.resources);
    forall i, j | 0 <= i < j < |classes|
      ensures !Clash(f.stem, classes[i], classes[j])
    {
      assert classes[i] in classes && classes[j] in classes;
      SnakeInjective(classes[i], classes[j]);
      SnakeAgrees(classes[i], classes[j]);
    }
    FileKeysDistinct(f);
  }

  /**
   No entry of the flat index is overwritten, that is, it has as many entries as there are listed
   classes, exactly when the paths within each single file are distinct; for plain names, exactly
   when no two class names of one file clash.
   */
  lemma NothingOverwritten(files: seq<ServiceFile>)
    requires GoodStems(files)
    ensures |V1Index(files)| == |AllV1Pairs(files)| <==> forall f :: f in files ==> Distinct(FileKeys(f))
    ensures (forall f :: f in files ==> PlainNames(f)) ==>
              (|V1Index(files)| == |AllV1Pairs(files)| <==>
               forall f :: f in files ==> NoClash(f.stem, ListedClasses(f.stem, f.service.resources)))
  {
    KeysDistinct(files);
    NothingReplaced(AllV1Pairs(files));
    forall f | f in files && PlainNames(f)
      ensures Distinct(FileKeys(f)) <==> NoClash(f.stem, ListedClasses(f.stem, f.service.resources))
    {
      FileKeysDistinct(f);
    }
  }

  // ---------------------------------------------------------------- the indexes agree

  function ClassNames(f: ServiceFile): seq<string> { KeysOf(EntryPairs(f.service.resources)) }

  /** A directory of service files: class names are dictionary keys, listed paths are distinct. */
  ghost predicate GoodFiles(files: seq<ServiceFile>) {
    && GoodStems(files)
    && forall f :: f in files ==> Distinct(ClassNames(f)) && Distinct(FileKeys(f))
  }

  lemma V1Lookup(files: seq<ServiceFile>, f: ServiceFile, i: nat)
    requires GoodFiles(files) && f in files && Listed(f.stem, f.service.resources, i)
    ensures var (className, resource) := f.service.resources[i];
            && ModulePath(f.stem, className) in V1Index(files)
            && V1Index(files)[ModulePath(f.stem, className)] == NamingRecord(resource.naming)
  {
    var pair := V1Pair(f.stem, f.service.resources[i]);
    V1PairsFrom(f.stem, f.service.resources, pair);
    AllV1From(files, pair);
    KeysDistinct(files);
    var k :| 0 <= k < |AllV1Pairs(files)| && AllV1Pairs(files)[k] == pair;
    FromPairsAt(AllV1Pairs(files), k);
  }

  lemma {:induction false} V2KeysDistinct(files: seq<ServiceFile>)
    requires GoodStems(files)
    ensures Distinct(KeysOf(V2Pairs(files)))
  {
    if files != [] {
      var n := |files| - 1;
      var before := V2Pairs(files[..n]);
      GoodStemsPrefix(files);
      V2KeysDistinct(files[..n]);
      if files[n].stem in V2_SERVICES {
        var pair := (files[n].stem, BuildV2Namespace(files[n].service));
        assert KeysOf(before + [pair]) == KeysOf(before) + [pair.0];
        if pair.0 in KeysOf(before) {
          KeyOfPair(before, pair.0);
          var p :| p in before && p.0 == pair.0;
          V2From(files[..n], p);
          assert false;
        }
        DistinctConcat(KeysOf(before), [pair.0]);
      } else {
        assert before + [] == before;
      }
    }
  }

  lemma V2Lookup(files: seq<ServiceFile>, f: ServiceFile, i: nat)
    requires GoodStems(files) && Distinct(ClassNames(f))
    requires f in files && f.stem in V2_SERVICES && i < |f.service.resources|
    ensures var (className, resource) := f.service.resources[i];
            && f.stem in V2Tree(files)
            && className in V2Tree(files)[f.stem].resources
            && V2Tree(files)[f.stem].resources[className] == ResourceToEntry(resource)
  {
    var pair := (f.stem, BuildV2Namespace(f.service));
    V2From(files, pair);
    V2KeysDistinct(files);
    var k :| 0 <= k < |V2Pairs(files)| && V2Pairs(files)[k] == pair;
    FromPairsAt(V2Pairs(files), k);
    FromPairsAt(EntryPairs(f.service.resources), i);
  }

  /**
   Every listed class of a v2 service has one and the same naming record in both indexes, and it
   reads back as the rule of the file.
   */
  lemma IndexesAgree(files: seq<ServiceFile>, f: ServiceFile, i: nat)
    requires GoodFiles(files) && f in files && f.stem in V2_SERVICES && Listed(f.stem, f.service.resources, i)
    ensures var (className, resource) := f.service.resources[i];
            && ModulePath(f.stem, className) in V1Index(files)
            && f.stem in V2Tree(files)
            && className in V2Tree(files)[f.stem].resources
            && V1Index(files)[ModulePath(f.stem, className)] == V2Tree(files)[f.stem].resources[className].naming
            && ReadRule(V1Index(files)[ModulePath(f.stem, className)]) == Some(resource.naming)
  {
    V1Lookup(files, f, i);
    V2Lookup(files, f, i);
    RecordRoundTrip(f.service.resources[i].1.naming);
  }

  // ---------------------------------------------------------------- when classes clash

  /** The last listed class of a file with a path. */
  ghost predicate LastWith(stem: string, resources: seq<(string, ResourceSchema)>, path: string, j: nat) {
    && Listed(stem, resources, j) && ModulePath(stem, resources[j].0) == path
    && forall k: nat :: j < k && Listed(stem, resources, k) ==> ModulePath(stem, resources[k].0) != path
  }

  lemma LastEarlier(stem: string, resources: seq<(string, ResourceSchema)>, path: string, j: nat)
    requires resources != [] && LastWith(stem, resources[..|resources| - 1], path, j)
    requires Listed(stem, resources, |resources| - 1) ==> ModulePath(stem, resources[|resources| - 1].0) != path
    ensures LastWith(stem, resources, path, j)
  {
    var n := |resources| - 1;
    forall k: nat | j < k && Listed(stem, resources, k)
      ensures ModulePath(stem, resources[k].0) != path
    {
      assert k < n ==> Listed(stem, resources[..n], k);
    }
  }

  lemma {:induction false} LastWithExists(stem: string, resources: seq<(string, ResourceSchema)>, path: string, i: nat)
    returns (j: nat)
    requires Listed(stem, resources, i) && ModulePath(stem, resources[i].0) == path
    ensures LastWith(stem, resources, path, j)
  {
    var n := |resources| - 1;
    if Listed(stem, resources, n) && ModulePath(stem, resources[n].0) == path {
      j := n;
    } else {
      assert i < n && resources[..n][i] == resources[i];
      j := LastWithExists(stem, resources[..n], path, i);
      LastEarlier(stem, resources, path, j);
    }
  }

  /** A file writes the record of that class under the path. */
  lemma {:induction false} FileEntry(stem: string, resources: seq<(string, ResourceSchema)>, path: string, j: nat)
    requires LastWith(stem, resources, path, j)
    ensures path in FromPairs(V1Pairs(stem, resources))
    ensures FromPairs(V1Pairs(stem, resources))[path] == NamingRecord(resources[j].1.naming)
  {
    var n := |resources| - 1;
    var before := V1Pairs(stem, resources[..n]);
    if j < n {
      forall k: nat | j < k && Listed(stem, resources[..n], k)
        ensures ModulePath(stem, resources[..n][k].0) != path
      {
        assert Listed(stem, resources, k);
      }
      FileEntry(stem, resources[..n], path, j);
    }
    if Listed(stem, resources, n) {
      assert (before + [V1Pair(stem, resources[n])])[..|before|] == before;
    } else {
      assert before + [] == before;
    }
  }

  /** What a file writes under a path stays: no other file writes there. */
  lemma {:induction false} IndexFrom(files: seq<ServiceFile>, f: ServiceFile, path: string)
    requires GoodStems(files) && f in files && path in FromPairs(V1Pairs(f.stem, f.service.resources))
    ensures path in V1Index(files) && V1Index(files)[path] == FromPairs(V1Pairs(f.stem, f.service.resources))[path]
  {
    var n := |files| - 1;
    var g, before := files[n], AllV1Pairs(files[..n]);
    GoodStemsPrefix(files);
    FromPairsConcat(before, V1Pairs(g.stem, g.service.resources), path);
    if g != f {
      assert files == files[..n] + [g];
      IndexFrom(files[..n], f, path);
      FromPairsKeys(V1Pairs(f.stem, f.service.resources));
      FromPairsKeys(V1Pairs(g.stem, g.service.resources));
      if path in FromPairs(V1Pairs(g.stem, g.service.resources)) {
        FilesApart(f, g, path);
        assert false;
      }
    }
  }

  /** Every path in the index is written by some file. */
  lemma {:induction false} IndexWriter(files: seq<ServiceFile>, path: string) returns (f: ServiceFile)
    requires path in V1Index(files)
    ensures f in files && path in FromPairs(V1Pairs(f.stem, f.service.resources))
  {
    var n := |files| - 1;
    f := files[n];
    FromPairsConcat(AllV1Pairs(files[..n]), V1Pairs(f.stem, f.service.resources), path);
    if path !in FromPairs(V1Pairs(f.stem, f.service.resources)) {
      f := IndexWriter(files[..n], path);
    }
  }

  /** The last listed class of a file that clashes with class `i`, which may be `i` itself. */
  ghost predicate LastClash(f: ServiceFile, i: nat, j: nat)
    requires i < |f.service.resources|
  {
    var resources := f.service.resources;
    && Listed(f.stem, resources, j) && Clash(f.stem, resources[j].0, resources[i].0)
    && forall k: nat :: j < k && Listed(f.stem, resources, k) ==> !Clash(f.stem, resources[k].0, resources[i].0)
  }

  lemma ListedPlain(f: ServiceFile, k: nat)
    requires PlainNames(f) && Listed(f.stem, f.service.resources, k)
    ensures AllAlnum(f.service.resources[k].0)
  {
    ListedIn(f.stem, f.service.resources, k);
  }

  lemma {:induction false} ListedIn(stem: string, resources: seq<(string, ResourceSchema)>, k: nat)
    requires Listed(stem, resources, k)
    ensures resources[k].0 in ListedClasses(stem, resources)
  {
    var n := |resources| - 1;
    if k < n {
      ListedIn(stem, resources[..n], k);
    }
  }

  /**
   With clashes: the entry of a listed class holds the rule of the last listed class of its file
   with the same path, which for plain names is the last that clashes with it.  So the two indexes
   agree on a class exactly when that last class has the same naming rule.
   */
  lemma IndexesAgreeExactly(files: seq<ServiceFile>, f: ServiceFile, i: nat) returns (j: nat)
    requires GoodStems(files) && f in files && f.stem in V2_SERVICES && Listed(f.stem, f.service.resources, i)
    requires Distinct(ClassNames(f))
    ensures LastWith(f.stem, f.service.resources, ModulePath(f.stem, f.service.resources[i].0), j)
    ensures PlainNames(f) ==> LastClash(f, i, j)
    ensures var (className, resource) := f.service.resources[i];
            && ModulePath(f.stem, className) in V1Index(files)
            && f.stem in V2Tree(files)
            && className in V2Tree(files)[f.stem].resources
            && ReadRule(V1Index(files)[ModulePath(f.stem, className)]) == Some(f.service.resources[j].1.naming)
            && (V1Index(files)[ModulePath(f.stem, className)] == V2Tree(files)[f.stem].resources[className].naming
                <==> f.service.resources[j].1.naming == resource.naming)
  {
    var resources := f.service.resources;
    var path := ModulePath(f.stem, resources[i].0);
    j := LastWithExists(f.stem, resources, path, i);
    if PlainNames(f) {
      LastIsClash(f, i, j);
    }
    FileEntry(f.stem, resources, path, j);
    IndexFrom(files, f, path);
    V2Lookup(files, f, i);
    RecordRoundTrip(resources[i].1.naming);
    RecordRoundTrip(resources[j].1.naming);
  }

  lemma LastIsClash(f: ServiceFile, i: nat, j: nat)
    requires PlainNames(f) && Listed(f.stem, f.service.resources, i)
    requires LastWith(f.stem, f.service.resources, ModulePath(f.stem, f.service.resources[i].0), j)
    ensures LastClash(f, i, j)
  {
    var resources := f.service.resources;
    forall k: nat | Listed(f.stem, resources, k)
      ensures Clash(f.stem, resources[k].0, resources[i].0)
              <==> ModulePath(f.stem, resources[k].0) == ModulePath(f.stem, resources[i].0)
    {
      ListedPlain(f, k);
      ListedPlain(f, i);
      PathsClash(f.stem, resources[k].0, resources[i].0);
    }
  }

  // ---------------------------------------------------------------- what the indexes hold

  /** A class is left out of the flat index when the list of exclusions names it. */
  predicate Excluded(stem: string, className: string) {
    || (stem == "insights" && className in ["Component", "Diagnosticsetting", "DiagnosticSetting"])
    || (stem == "eventhub" && className == "Eventhub")
  }

  /** The flat index has exactly the paths of the classes that are not excluded. */
  lemma V1PathsExactly(files: seq<ServiceFile>, path: string)
    requires GoodStems(files)
    ensures path in V1Index(files)
            <==> exists f, i: nat :: f in files && i < |f.service.resources|
                                && !Excluded(f.stem, f.service.resources[i].0)
                                && path == ModulePath(f.stem, f.service.resources[i].0)
  {
    if path in V1Index(files) {
      var f := IndexWriter(files, path);
      var i := PathWriter(f, path);
    }
    if f, i: nat :| f in files && i < |f.service.resources| && !Excluded(f.stem, f.service.resources[i].0)
                    && path == ModulePath(f.stem, f.service.resources[i].0) {
      ListedIs(f.stem, f.service.resources, i);
      var j := LastWithExists(f.stem, f.service.resources, path, i);
      FileEntry(f.stem, f.service.resources, path, j);
      IndexFrom(files, f, path);
    }
  }

  lemma ListedIs(stem: string, resources: seq<(string, ResourceSchema)>, i: nat)
    requires i < |resources|
    ensures Listed(stem, resources, i) <==> !Excluded(stem, resources[i].0)
  {}

  /** The class for which a file writes a path. */
  lemma PathWriter(f: ServiceFile, path: string) returns (i: nat)
    requires path in FromPairs(V1Pairs(f.stem, f.service.resources))
    ensures i < |f.service.resources| && !Excluded(f.stem, f.service.resources[i].0)
    ensures path == ModulePath(f.stem, f.service.resources[i].0)
  {
    var pairs := V1Pairs(f.stem, f.service.resources);
    FromPairsKeys(pairs);
    KeyOfPair(pairs, path);
    var p :| p in pairs && p.0 == path;
    V1PairsFrom(f.stem, f.service.resources, p);
    i :| Listed(f.stem, f.service.resources, i) && p == V1Pair(f.stem, f.service.resources[i]);
    ListedIs(f.stem, f.service.resources, i);
  }

  /** The tree has exactly the v2 services, with their namespace and exactly their classes. */
  lemma TreeExactly(files: seq<ServiceFile>, f: ServiceFile)
    requires GoodStems(files) && f in files
    ensures f.stem in V2Tree(files) <==> f.stem in V2_SERVICES
    ensures f.stem in V2Tree(files) ==>
              && V2Tree(files)[f.stem].namespace == f.service.azureNamespace
              && forall className :: className in V2Tree(files)[f.stem].resources
                   <==> exists i :: 0 <= i < |f.service.resources| && f.service.resources[i].0 == className
  {
    FromPairsKeys(V2Pairs(files));
    if f.stem in V2_SERVICES {
      var pair := (f.stem, BuildV2Namespace(f.service));
      V2From(files, pair);
      V2KeysDistinct(files);
      var k :| 0 <= k < |V2Pairs(files)| && V2Pairs(files)[k] == pair;
      FromPairsAt(V2Pairs(files), k);
      FromPairsKeys(EntryPairs(f.service.resources));
      assert forall i :: 0 <= i < |f.service.resources| ==>
          KeysOf(EntryPairs(f.service.resources))[i] == f.service.resources[i].0;
    } else if f.stem in V2Tree(files) {
      KeyOfPair(V2Pairs(files), f.stem);
      var p :| p in V2Pairs(files) && p.0 == f.stem;
      V2From(files, p);
      assert false;
    }
  }

  // ---------------------------------------------------------------- file order

  lemma SameEntries(files: seq<ServiceFile>, others: seq<ServiceFile>, path: string)
    requires GoodStems(files) && GoodStems(others) && forall f :: f in files ==> f in others
    requires path in V1Index(files)
    ensures path in V1Index(others) && V1Index(others)[path] == V1Index(files)[path]
  {
    var f := IndexWriter(files, path);
    IndexFrom(files, f, path);
    IndexFrom(others, f, path);
  }

  /** The two indexes do not depend on the order in which the files are read, clashes or not. */
  lemma FileOrderFree(files: seq<ServiceFile>, others: seq<ServiceFile>)
    requires GoodStems(files) && GoodStems(others)
    requires forall f :: f in files <==> f in others
    ensures V1Index(files) == V1Index(others)
    ensures V2Tree(files) == V2Tree(others)
  {
    forall path | path in V1Index(files)
      ensures path in V1Index(others) && V1Index(others)[path] == V1Index(files)[path]
    {
      SameEntries(files, others, path);
    }
    forall path | path in V1Index(others)
      ensures path in V1Index(files)
    {
      SameEntries(others, files, path);
    }
    V2KeysDistinct(files);
    V2KeysDistinct(others);
    forall pair
      ensures pair in V2Pairs(files) <==> pair in V2Pairs(others)
    {
      V2From(files, pair);
      V2From(others, pair);
    }
    OrderFree(V2Pairs(files), V2Pairs(others));
  }

  /** The v1 namer fed from the flat index. */
  function NameFromV1(index: map<string, Record>, stem: string, className: string, stack: Stack,
                      workload: Option<string>, regions: map<string, Region>, instance: string)
    : Option<Result<string, NameError>>
  {
    var path := ModulePath(stem, className);
    if path !in index then None
    else
      match ReadRule(index[path])
      case None => None
      case Some(rule) => Some(NameFor(rule, stack, workload, regions, instance))
  }

  /** The v2 namer fed from the tree. */
  function NameFromV2(tree: map<string, Namespace>, stem: string, className: string, stack: Stack,
                      workload: Option<string>, regions: map<string, Region>, separator: Option<string>,
                      instance: string)
    : Option<Result<string, NameError>>
  {
    if stem !in tree || className !in tree[stem].resources then None
    else
      match ReadResource(tree[stem].resources[className])
      case None => None
      case Some(resource) => Some(Autoname(resource.naming, stack, workload, regions, separator, Some(instance)))
  }

  /**
   End to end: from the files to the names.  Both routes find the class, and they give the same
   name exactly when the elements pass the character test of the naming rule and a separator,
   where one is used, is the hyphen.
   */
  lemma NamesAgreeEndToEnd(files: seq<ServiceFile>, f: ServiceFile, i: nat, stack: Stack, workload: Option<string>,
                           regions: map<string, Region>, separator: Option<string>, instance: string)
    requires GoodFiles(files) && f in files && f.stem in V2_SERVICES && Listed(f.stem, f.service.resources, i)
    ensures var (className, resource) := f.service.resources[i];
            var v1 := NameFromV1(V1Index(files), f.stem, className, stack, workload, regions, instance);
            var v2 := NameFromV2(V2Tree(files), f.stem, className, stack, workload, regions, separator, instance);
            && v1 == Some(NameFor(resource.naming, stack, workload, regions, instance))
            && v2 == Some(Autoname(resource.naming, stack, workload, regions, separator, Some(instance)))
            && (v1 == v2 <==>
                match LocationAbbr(regions, stack.location)
                case Err(_) => true
                case Ok(abbr) =>
                  && Compatible(resource.naming, Fallback(workload, stack), stack.env, abbr, instance)
                  && (resource.naming.alphanumeric || separator == Some("-")))
  {
    var (className, resource) := f.service.resources[i];
    IndexesAgree(files, f, i);
    V2Lookup(files, f, i);
    ResourceRoundTrip(resource);
    NamersAgree(resource.naming, stack, workload, regions, separator, instance);
  }
}
