/** `stack://` references: parsing, rendering, and lookup along a dotted path. */
module StackReferences {
  import opened Wrappers
  import opened Text

  const SCHEME := "stack://"

  datatype StackRef = StackRef(stack: string, output: string, path: Option<string>)

  predicate StartsWith(s: string, prefix: string) { prefix <= s }

  function RemovePrefix(s: string, prefix: string): string { if StartsWith(s, prefix) then s[|prefix|..] else s }

  /** The output segment: what follows the first dot is a path into the output. */
  function SplitOutput(segment: string): (string, Option<string>) {
    if '.' in segment then (Split(segment, DOT)[0], Some(Join(Split(segment, DOT)[1..], "."))) else (segment, None)
  }

  /** `parse_stack_reference`; None where it raises. */
  function ParseStackReference(v: string, org: string): Option<StackRef> {
    var parts := Split(RemovePrefix(v, SCHEME), SLASH);
    if |parts| < 3 || |parts| > 4 then None
    else if |parts| == 4 then
      var (output, path) := SplitOutput(parts[3]);
      Some(StackRef(parts[0] + "/" + parts[1] + "/" + parts[2], output, path))
    else
      var (output, path) := SplitOutput(parts[2]);
      Some(StackRef(org + "/" + parts[0] + "/" + parts[1], output, path))
  }

  function OutputText(output: string, path: Option<string>): string {
    match path case None => output case Some(p) => output + "." + p
  }

  function RenderLong(org: string, project: string, stack: string, output: string, path: Option<string>): string {
    SCHEME + (org + "/" + project + "/" + stack + "/" + OutputText(output, path))
  }

  function RenderShort(project: string, stack: string, output: string, path: Option<string>): string {
    SCHEME + (project + "/" + stack + "/" + OutputText(output, path))
  }

  predicate GoodOutput(output: string, path: Option<string>) {
    FreeOf(output, SLASH) && FreeOf(output, DOT) && (path.Some? ==> FreeOf(path.value, SLASH))
  }

  lemma SplitOutputText(output: string, path: Option<string>)
    requires FreeOf(output, DOT)
    ensures SplitOutput(OutputText(output, path)) == (output, path)
  {
    SplitFree(output, DOT);
    match path
    case None =>
    case Some(p) =>
      SplitConcat(output, '.', p, DOT);
      assert (output + "." + p)[|output|] == '.';
      assert Split(output + "." + p, DOT)[1..] == Split(p, DOT);
      JoinSplit(p, '.');
  }

  /** Splitting an output segment and putting it together again gives it back. */
  lemma OutputTextSplit(segment: string)
    ensures var (output, path) := SplitOutput(segment); OutputText(output, path) == segment && FreeOf(output, DOT)
  {
    var pieces := Split(segment, DOT);
    SplitPieces(segment, DOT);
    SplitSingle(segment, DOT);
    JoinSplit(segment, '.');
    if '.' in segment {
      var i :| 0 <= i < |segment| && segment[i] == '.';
      assert !FreeOf(segment, DOT);
    }
  }

  lemma OutputTextFree(output: string, path: Option<string>)
    ensures GoodOutput(output, path) ==> FreeOf(OutputText(output, path), SLASH)
  {}

  lemma SplitFour(a: string, b: string, c: string, d: string)
    requires FreeOf(a, SLASH) && FreeOf(b, SLASH) && FreeOf(c, SLASH) && FreeOf(d, SLASH)
    ensures Split(a + "/" + b + "/" + c + "/" + d, SLASH) == [a, b, c, d]
  {
    SplitThree(a, b, c);
    SplitConcat(a + "/" + b + "/" + c, '/', d, SLASH);
    SplitFree(d, SLASH);
  }

  lemma SplitThree(a: string, b: string, c: string)
    requires FreeOf(a, SLASH) && FreeOf(b, SLASH) && FreeOf(c, SLASH)
    ensures Split(a + "/" + b + "/" + c, SLASH) == [a, b, c]
  {
    SplitConcat(a, '/', b, SLASH);
    SplitConcat(a + "/" + b, '/', c, SLASH);
    SplitFree(a, SLASH);
    SplitFree(b, SLASH);
    SplitFree(c, SLASH);
  }

  /** Parsing a rendered reference returns its parts, whatever the default organisation. */
  lemma ParseRendered(org: string, project: string, stack: string, output: string, path: Option<string>, other: string)
    requires FreeOf(org, SLASH) && FreeOf(project, SLASH) && FreeOf(stack, SLASH) && GoodOutput(output, path)
    ensures ParseStackReference(RenderLong(org, project, stack, output, path), other)
            == Some(StackRef(org + "/" + project + "/" + stack, output, path))
  {
    var body := org + "/" + project + "/" + stack + "/" + OutputText(output, path);
    assert RemovePrefix(SCHEME + body, SCHEME) == body;
    OutputTextFree(output, path);
    SplitFour(org, project, stack, OutputText(output, path));
    SplitOutputText(output, path);
  }

  /** The short form is the long form with the default organisation. */
  lemma ShortIsLong(org: string, project: string, stack: string, output: string, path: Option<string>)
    requires FreeOf(org, SLASH) && FreeOf(project, SLASH) && FreeOf(stack, SLASH) && GoodOutput(output, path)
    ensures ParseStackReference(RenderShort(project, stack, output, path), org)
            == ParseStackReference(RenderLong(org, project, stack, output, path), org)
  {
    var body := project + "/" + stack + "/" + OutputText(output, path);
    assert RemovePrefix(SCHEME + body, SCHEME) == body;
    OutputTextFree(output, path);
    SplitThree(project, stack, OutputText(output, path));
    SplitOutputText(output, path);
    ParseRendered(org, project, stack, output, path, org);
  }

  /** The long form, written out. */
  lemma WrittenParsed(org: string, project: string, stack: string, output: string, path: string, other: string)
    requires FreeOf(org, SLASH) && FreeOf(project, SLASH) && FreeOf(stack, SLASH)
    requires FreeOf(output, SLASH) && FreeOf(output, DOT) && FreeOf(path, SLASH)
    ensures ParseStackReference("stack://" + (org + "/" + project + "/" + stack + "/" + (output + "." + path)), other)
            == Some(StackRef(org + "/" + project + "/" + stack, output, Some(path)))
    ensures ParseStackReference("stack://" + (org + "/" + project + "/" + stack + "/" + output), other)
            == Some(StackRef(org + "/" + project + "/" + stack, output, None))
  {
    ParseRendered(org, project, stack, output, Some(path), other);
    ParseRendered(org, project, stack, output, None, other);
  }

  lemma JoinThree(p: seq<string>)
    requires |p| == 3
    ensures Join(p, "/") == p[0] + "/" + p[1] + "/" + p[2]
  {
    JoinCons(p[1], [p[2]], "/");
    JoinCons(p[0], [p[1], p[2]], "/");
    assert p == [p[0]] + [p[1], p[2]] && [p[1]] + [p[2]] == [p[1], p[2]];
    assert p[0] + "/" + (p[1] + "/" + p[2]) == p[0] + "/" + p[1] + "/" + p[2];
  }

  /**
   A reference is accepted exactly when it has three or four segments, and then its parts written
   out again are the reference, with the default organisation put in front of the short form.
   */
  lemma AcceptedRendersBack(v: string, org: string)
    ensures var body := RemovePrefix(v, SCHEME);
            var n := |Split(body, SLASH)|;
            && (ParseStackReference(v, org).Some? <==> n == 3 || n == 4)
            && (ParseStackReference(v, org).Some? ==>
                  var r := ParseStackReference(v, org).value;
                  && FreeOf(r.output, DOT)
                  && r.stack + "/" + OutputText(r.output, r.path) == (if n == 4 then body else org + "/" + body))
  {
    var body := RemovePrefix(v, SCHEME);
    var parts := Split(body, SLASH);
    JoinSplit(body, '/');
    if |parts| == 3 {
      JoinThree(parts);
      OutputTextSplit(parts[2]);
      var (a, b, c) := (parts[0], parts[1], parts[2]);
      assert org + "/" + a + "/" + b + "/" + c == org + "/" + (a + "/" + b + "/" + c);
    } else if |parts| == 4 {
      JoinThree(parts[1..]);
      OutputTextSplit(parts[3]);
      var (a, b, c, d) := (parts[0], parts[1], parts[2], parts[3]);
      assert a + "/" + b + "/" + c + "/" + d == a + "/" + (b + "/" + c + "/" + d);
    }
  }

  // ---------------------------------------------------------------- dotted lookup

  datatype Json =
    | Null
    | Bool(b: bool)
    | Num(n: int)
    | Str(s: string)
    | List(items: seq<Json>)
    | Dict(entries: map<string, Json>)

  /** One key of `deep_get`: `d.get(key)` on a dictionary, None on anything else. */
  function Step(d: Json, key: string): Json {
    if d.Dict? && key in d.entries then d.entries[key] else Null
  }

  /** `reduce` of the steps over the keys. */
  function Follow(d: Json, keys: seq<string>): Json
    decreases |keys|
  {
    if keys == [] then d else Follow(Step(d, keys[0]), keys[1..])
  }

  function DeepGet(d: Json, path: string): Json { Follow(d, Split(path, DOT)) }

  lemma {:induction false} FollowConcat(d: Json, a: seq<string>, b: seq<string>)
    ensures Follow(d, a + b) == Follow(Follow(d, a), b)
    decreases |a|
  {
    if a == [] {
      assert a + b == b;
    } else {
      FollowConcat(Step(d, a[0]), a[1..], b);
      assert (a + b)[1..] == a[1..] + b;
    }
  }

  /** Looking up `p.q` is looking up `q` in what `p` gives, for any texts `p` and `q`. */
  lemma DeepGetComposes(d: Json, p: string, q: string)
    ensures DeepGet(d, p + "." + q) == DeepGet(DeepGet(d, p), q)
  {
    SplitConcat(p, '.', q, DOT);
    FollowConcat(d, Split(p, DOT), Split(q, DOT));
  }

  /** The values met along the keys: each is a dictionary that holds the next key. */
  ghost predicate Chain(d: Json, keys: seq<string>, values: seq<Json>) {
    && |values| == |keys| + 1
    && values[0] == d
    && forall i :: 0 <= i < |keys| ==>
         values[i].Dict? && keys[i] in values[i].entries && values[i + 1] == values[i].entries[keys[i]]
  }

  lemma {:induction false} FollowNull(keys: seq<string>)
    ensures Follow(Null, keys) == Null
  {
    if keys != [] {
      FollowNull(keys[1..]);
    }
  }

  /**
   A lookup gives a value other than None exactly when dictionaries lead to it along all the
   keys; a missing key or anything but a dictionary on the way gives None.
   */
  lemma {:induction false} FollowMeaning(d: Json, keys: seq<string>, v: Json)
    requires v != Null
    ensures Follow(d, keys) == v <==> exists values :: Chain(d, keys, values) && values[|keys|] == v
    decreases |keys|
  {
    if keys == [] {
      assert Chain(d, [], [d]);
    } else {
      var next := Step(d, keys[0]);
      FollowMeaning(next, keys[1..], v);
      FollowNull(keys[1..]);
      if Follow(d, keys) == v {
        var rest: seq<Json> :| Chain(next, keys[1..], rest) && rest[|keys| - 1] == v;
        assert d.Dict? && keys[0] in d.entries;
        var values := [d] + rest;
        assert Chain(d, keys, values) && values[|keys|] == v;
      }
      if values: seq<Json> :| Chain(d, keys, values) && values[|keys|] == v {
        assert values[0].Dict? && keys[0] in values[0].entries && values[1] == next;
        assert Chain(next, keys[1..], values[1..]) && values[1..][|keys| - 1] == v;
      }
    }
  }
}
