/**
 Azure resource IDs.  The regular expression of `AzureResourceId` is given as a relation between
 a text and its groups, and `_params` as a reading of the slash-separated segments; the two are
 shown to be the same, so that the grammar is unambiguous and rendering and parsing are inverse.
 */
module ResourceIds {
  import opened Wrappers
  import opened Text

  datatype Resource = Resource(provider: string, resourceType: string, name: string, subResource: Option<string>)

  datatype AzureId = AzureId(subscription: string, resourceGroup: Option<string>, resource: Option<Resource>)

  /** One `[^/]+` group. */
  predicate Component(s: string) { s != "" && FreeOf(s, SLASH) }

  predicate WellFormed(id: AzureId) {
    && Component(id.subscription)
    && (id.resourceGroup.Some? ==> Component(id.resourceGroup.value))
    && (id.resource.Some? ==>
          && Component(id.resource.value.provider)
          && Component(id.resource.value.resourceType)
          && Component(id.resource.value.name))
  }

  datatype Keywords = Keywords(subscriptions: string, resourceGroups: string, providers: string)

  const CANONICAL: Keywords := Keywords("subscriptions", "resourceGroups", "providers")

  /** Keywords are matched without regard to case. */
  predicate SameWord(a: string, b: string) { Lower(a) == Lower(b) }

  predicate KeywordsMatch(k: Keywords) {
    && SameWord(k.subscriptions, CANONICAL.subscriptions)
    && SameWord(k.resourceGroups, CANONICAL.resourceGroups)
    && SameWord(k.providers, CANONICAL.providers)
  }

  function GroupText(g: Option<string>, k: Keywords): string {
    match g case None => "" case Some(name) => "/" + k.resourceGroups + "/" + name
  }

  function ResourceText(r: Option<Resource>, k: Keywords): string {
    match r
    case None => ""
    case Some(res) =>
      "/" + k.providers + "/" + res.provider + "/" + res.resourceType + "/" + res.name
      + (match res.subResource case None => "" case Some(t) => "/" + t)
  }

  /** The text of an ID, written with the given spelling of the keywords. */
  function RenderWith(id: AzureId, k: Keywords): string {
    "/" + k.subscriptions + "/" + id.subscription + GroupText(id.resourceGroup, k) + ResourceText(id.resource, k)
  }

  function Render(id: AzureId): string { RenderWith(id, CANONICAL) }

  /** The regular expression matches `s` with the groups of `id`. */
  ghost predicate PatternMatches(s: string, id: AzureId) {
    WellFormed(id) && exists k :: KeywordsMatch(k) && s == RenderWith(id, k)
  }

  /** `AzureResourceId.is_valid`: the expression matches at all. */
  ghost predicate IsValid(s: string) { exists id :: PatternMatches(s, id) }

  // ---------------------------------------------------------------- reading the segments

  function ResourcePart(segs: seq<string>): Option<Option<Resource>> {
    if segs == [] then Some(None)
    else if |segs| >= 4 && SameWord(segs[0], CANONICAL.providers)
            && segs[1] != "" && segs[2] != "" && segs[3] != "" then
      Some(Some(Resource(segs[1], segs[2], segs[3], if |segs| == 4 then None else Some(Join(segs[4..], "/")))))
    else None
  }

  predicate Grouped(rest: seq<string>) {
    |rest| >= 2 && SameWord(rest[0], CANONICAL.resourceGroups) && rest[1] != ""
  }

  function FromSegments(segs: seq<string>): Option<AzureId> {
    if |segs| >= 3 && segs[0] == "" && SameWord(segs[1], CANONICAL.subscriptions) && segs[2] != "" then
      var rest := segs[3..];
      match ResourcePart(if Grouped(rest) then rest[2..] else rest)
      case None => None
      case Some(resource) => Some(AzureId(segs[2], if Grouped(rest) then Some(rest[1]) else None, resource))
    else None
  }

  /** `AzureResourceId._params`: the groups, or None where it raises. */
  function Params(s: string): Option<AzureId> { FromSegments(Split(s, SLASH)) }

  // ---------------------------------------------------------------- both directions

  function TailSegments(t: Option<string>): seq<string> {
    match t case None => [] case Some(text) => Split(text, SLASH)
  }

  function ResourceSegments(r: Option<Resource>, k: Keywords): seq<string> {
    match r
    case None => []
    case Some(res) => [k.providers, res.provider, res.resourceType, res.name] + TailSegments(res.subResource)
  }

  function GroupSegments(g: Option<string>, k: Keywords): seq<string> {
    match g case None => [] case Some(name) => [k.resourceGroups, name]
  }

  function Segments(id: AzureId, k: Keywords): seq<string> {
    ["", k.subscriptions, id.subscription] + (GroupSegments(id.resourceGroup, k) + ResourceSegments(id.resource, k))
  }

  /** Text put in front of further segments: each adds a slash. */
  function Slashed(segs: seq<string>): string { if segs == [] then "" else "/" + segs[0] + Slashed(segs[1..]) }

  lemma {:induction false} SlashedJoin(segs: seq<string>)
    requires segs != []
    ensures "/" + Join(segs, "/") == Slashed(segs)
  {
    if |segs| > 1 {
      SlashedJoin(segs[1..]);
      assert "/" + (segs[0] + "/" + Join(segs[1..], "/")) == "/" + segs[0] + ("/" + Join(segs[1..], "/"));
    } else {
      assert "/" + segs[0] + "" == "/" + segs[0];
    }
  }

  lemma {:induction false} SlashedConcat(a: seq<string>, b: seq<string>)
    ensures Slashed(a + b) == Slashed(a) + Slashed(b)
  {
    if a == [] {
      assert a + b == b;
    } else {
      SlashedConcat(a[1..], b);
      assert (a + b)[1..] == a[1..] + b;
    }
  }

  lemma SlashedGroup(g: Option<string>, k: Keywords)
    ensures Slashed(GroupSegments(g, k)) == GroupText(g, k)
  {
    if g.Some? {
      SlashedTwo(k.resourceGroups, g.value);
    }
  }

  lemma SlashedResource(r: Option<Resource>, k: Keywords)
    ensures Slashed(ResourceSegments(r, k)) == ResourceText(r, k)
  {
    if r.Some? {
      var res := r.value;
      var front, back, tail := [k.providers, res.provider], [res.resourceType, res.name], TailSegments(res.subResource);
      assert ResourceSegments(r, k) == front + (back + tail);
      SlashedConcat(front, back + tail);
      SlashedConcat(back, tail);
      SlashedTwo(k.providers, res.provider);
      SlashedTwo(res.resourceType, res.name);
      SlashedTail(res.subResource);
      FiveParts("/" + k.providers + "/" + res.provider, res.resourceType, res.name, Slashed(tail));
    }
  }

  lemma FiveParts(a: string, b: string, c: string, d: string)
    ensures a + (("/" + b + "/" + c) + d) == a + "/" + b + "/" + c + d
  {}

  /** The rendered text is its segments, each behind a slash. */
  lemma RenderIsSlashed(id: AzureId, k: Keywords)
    ensures RenderWith(id, k) == Slashed(Segments(id, k)[1..])
  {
    var head := [k.subscriptions, id.subscription];
    var g, r := GroupSegments(id.resourceGroup, k), ResourceSegments(id.resource, k);
    assert Segments(id, k)[1..] == head + (g + r);
    SlashedConcat(head, g + r);
    SlashedConcat(g, r);
    SlashedTwo(k.subscriptions, id.subscription);
    SlashedGroup(id.resourceGroup, k);
    SlashedResource(id.resource, k);
  }

  lemma SlashedTwo(a: string, b: string)
    ensures Slashed([a, b]) == "/" + a + "/" + b
  {
    assert [a, b][1..] == [b] && [b][1..] == [];
    assert Slashed([b]) == "/" + b + "";
  }

  lemma SlashedTail(t: Option<string>)
    ensures Slashed(TailSegments(t)) == match t case None => "" case Some(text) => "/" + text
  {
    if t.Some? {
      SlashedJoin(Split(t.value, SLASH));
      JoinSplit(t.value, '/');
    }
  }

  lemma KeywordFree(a: string, b: string)
    requires SameWord(a, b) && FreeOf(b, SLASH)
    ensures FreeOf(a, SLASH)
  {
    assert |a| == |Lower(a)| == |b|;
    forall i | 0 <= i < |a|
      ensures a[i] != '/'
    {
      assert LowerChar(a[i]) == Lower(a)[i] == Lower(b)[i] == LowerChar(b[i]);
    }
  }

  lemma SegmentsFree(id: AzureId, k: Keywords)
    requires WellFormed(id) && KeywordsMatch(k)
    ensures AllFreeOf(Segments(id, k), SLASH)
  {
    KeywordFree(k.subscriptions, CANONICAL.subscriptions);
    KeywordFree(k.resourceGroups, CANONICAL.resourceGroups);
    KeywordFree(k.providers, CANONICAL.providers);
    if id.resource.Some? && id.resource.value.subResource.Some? {
      SplitPieces(id.resource.value.subResource.value, SLASH);
    }
    assert AllFreeOf(GroupSegments(id.resourceGroup, k), SLASH);
    assert AllFreeOf(ResourceSegments(id.resource, k), SLASH);
  }

  /** The text of an ID splits into exactly its segments. */
  lemma RenderSplits(id: AzureId, k: Keywords)
    requires WellFormed(id) && KeywordsMatch(k)
    ensures Split(RenderWith(id, k), SLASH) == Segments(id, k)
  {
    SegmentsFree(id, k);
    SplitJoin(Segments(id, k), '/');
    RenderIsSlashed(id, k);
    JoinLeading(Segments(id, k));
  }

  /** A leading empty segment makes the joined text start with a slash. */
  lemma JoinLeading(segs: seq<string>)
    requires |segs| > 1 && segs[0] == ""
    ensures Join(segs, "/") == Slashed(segs[1..])
  {
    SlashedJoin(segs[1..]);
    assert "" + "/" + Join(segs[1..], "/") == "/" + Join(segs[1..], "/");
  }

  /** Reading the segments of an ID gives the ID back. */
  lemma FromSegmentsOf(id: AzureId, k: Keywords)
    requires WellFormed(id) && KeywordsMatch(k)
    ensures FromSegments(Segments(id, k)) == Some(id)
  {
    var segs := Segments(id, k);
    var g, r := GroupSegments(id.resourceGroup, k), ResourceSegments(id.resource, k);
    assert segs[3..] == g + r;
    assert !(SameWord(k.providers, CANONICAL.resourceGroups) && SameWord(k.providers, CANONICAL.providers)) by {
      assert |Lower(CANONICAL.resourceGroups)| != |Lower(CANONICAL.providers)|;
    }
    ResourceSegmentsRead(id.resource, k);
    if id.resourceGroup.Some? {
      assert (g + r)[2..] == r;
    } else {
      assert g + r == r;
    }
  }

  lemma ResourceSegmentsRead(r: Option<Resource>, k: Keywords)
    requires KeywordsMatch(k)
    requires r.Some? ==> r.value.provider != "" && r.value.resourceType != "" && r.value.name != ""
    ensures ResourcePart(ResourceSegments(r, k)) == Some(r)
  {
    if r.Some? {
      var tail := TailSegments(r.value.subResource);
      assert ResourceSegments(r, k)[4..] == tail;
      if r.value.subResource.Some? {
        JoinSplit(r.value.subResource.value, '/');
      }
    }
  }

  lemma ResourcePartIs(segs: seq<string>) returns (provider: string)
    requires AllFreeOf(segs, SLASH) && ResourcePart(segs).Some?
    ensures SameWord(provider, CANONICAL.providers)
    ensures forall k: Keywords :: k.providers == provider ==> ResourceSegments(ResourcePart(segs).value, k) == segs
  {
    if segs == [] {
      provider := CANONICAL.providers;
    } else {
      provider := segs[0];
      var tail := segs[4..];
      assert segs == [segs[0], segs[1], segs[2], segs[3]] + tail;
      if tail != [] {
        SplitJoin(tail, '/');
      }
    }
  }

  lemma ResourcePartFree(segs: seq<string>)
    requires AllFreeOf(segs, SLASH) && ResourcePart(segs).Some?
    ensures ResourcePart(segs).value.Some? ==>
              var r := ResourcePart(segs).value.value;
              Component(r.provider) && Component(r.resourceType) && Component(r.name)
  {}

  /** Segments that can be read as an ID are the segments of that ID for some spelling. */
  lemma SegmentsOfRead(segs: seq<string>) returns (k: Keywords)
    requires AllFreeOf(segs, SLASH) && FromSegments(segs).Some?
    ensures KeywordsMatch(k) && WellFormed(FromSegments(segs).value) && Segments(FromSegments(segs).value, k) == segs
  {
    var rest := segs[3..];
    var last := if Grouped(rest) then rest[2..] else rest;
    var provider := ResourcePartIs(last);
    ResourcePartFree(last);
    k := Keywords(segs[1], if Grouped(rest) then rest[0] else CANONICAL.resourceGroups, provider);
    var id := FromSegments(segs).value;
    assert ResourceSegments(id.resource, k) == last;
    assert GroupSegments(id.resourceGroup, k) + last == rest;
    assert segs == ["", segs[1], segs[2]] + rest;
  }

  /** Parsing returns exactly the groups with which the regular expression matches. */
  lemma ParamsIsPattern(s: string, id: AzureId)
    ensures Params(s) == Some(id) <==> PatternMatches(s, id)
  {
    if Params(s) == Some(id) {
      var segs := Split(s, SLASH);
      SplitPieces(s, SLASH);
      var k := SegmentsOfRead(segs);
      JoinSplit(s, '/');
      RenderIsSlashed(id, k);
      JoinLeading(segs);
    }
    if PatternMatches(s, id) {
      var k :| KeywordsMatch(k) && s == RenderWith(id, k);
      RenderSplits(id, k);
      FromSegmentsOf(id, k);
    }
  }

  // ---------------------------------------------------------------- consequences

  /** `is_valid` holds exactly when `_params` does not raise. */
  lemma ValidIffParams(s: string)
    ensures IsValid(s) <==> Params(s).Some?
  {
    if Params(s).Some? {
      ParamsIsPattern(s, Params(s).value);
    }
    if id :| PatternMatches(s, id) {
      ParamsIsPattern(s, id);
    }
  }

  /** The expression matches a text in at most one way. */
  lemma Unambiguous(s: string, a: AzureId, b: AzureId)
    requires PatternMatches(s, a) && PatternMatches(s, b)
    ensures a == b
  {
    ParamsIsPattern(s, a);
    ParamsIsPattern(s, b);
  }

  /** Parsing a rendered ID returns its components. */
  lemma ParseRendered(id: AzureId)
    requires WellFormed(id)
    ensures Params(Render(id)) == Some(id)
  {
    assert KeywordsMatch(CANONICAL);
    ParamsIsPattern(Render(id), id);
  }

  /** Re-rendering an accepted text gives it back up to the case of the keywords. */
  lemma RenderParsed(s: string)
    requires Params(s).Some?
    ensures exists k :: KeywordsMatch(k) && s == RenderWith(Params(s).value, k)
    ensures Lower(Render(Params(s).value)) == Lower(s)
  {
    var id := Params(s).value;
    ParamsIsPattern(s, id);
    var k :| KeywordsMatch(k) && s == RenderWith(id, k);
    RenderIsSlashed(id, k);
    RenderIsSlashed(id, CANONICAL);
    SegmentsLower(id, k);
    SlashedLower(Segments(id, k)[1..], Segments(id, CANONICAL)[1..]);
  }

  lemma SegmentsLower(id: AzureId, k: Keywords)
    requires KeywordsMatch(k)
    ensures var a, b := Segments(id, k), Segments(id, CANONICAL);
            |a| == |b| && forall i :: 0 <= i < |a| ==> Lower(a[i]) == Lower(b[i])
  {}

  lemma {:induction false} SlashedLower(a: seq<string>, b: seq<string>)
    requires |a| == |b| && forall i :: 0 <= i < |a| ==> Lower(a[i]) == Lower(b[i])
    ensures Lower(Slashed(a)) == Lower(Slashed(b))
  {
    if a != [] {
      SlashedLower(a[1..], b[1..]);
      LowerConcat("/" + a[0], Slashed(a[1..]));
      LowerConcat("/" + b[0], Slashed(b[1..]));
      LowerConcat("/", a[0]);
      LowerConcat("/", b[0]);
    }
  }

  /** The constructor: parses, then insists that the subscription is a UUID. */
  function Construct(s: string, isUuid: string -> bool): Option<AzureId> {
    match Params(s)
    case None => None
    case Some(id) => if isUuid(id.subscription) then Some(id) else None
  }

  /** It accepts exactly the texts that the expression matches with a UUID as subscription. */
  lemma ConstructExactly(s: string, isUuid: string -> bool, id: AzureId)
    ensures Construct(s, isUuid) == Some(id) <==> PatternMatches(s, id) && isUuid(id.subscription)
  {
    ParamsIsPattern(s, id);
  }

  /** The full form and the short one, written out. */
  lemma WrittenParsed(s: string, g: string, p: string, t: string, n: string, tail: string)
    requires WellFormed(AzureId(s, Some(g), Some(Resource(p, t, n, Some(tail)))))
    ensures Params("/subscriptions/" + s) == Some(AzureId(s, None, None))
    ensures Params("/subscriptions/" + s + "/resourceGroups/" + g + "/providers/" + p + "/" + t + "/" + n + "/" + tail)
            == Some(AzureId(s, Some(g), Some(Resource(p, t, n, Some(tail)))))
  {
    ParseRendered(AzureId(s, None, None));
    ShortText(s);
    ParseRendered(AzureId(s, Some(g), Some(Resource(p, t, n, Some(tail)))));
    FullText(s, g, p, t, n, tail);
  }

  lemma ShortText(s: string)
    ensures Render(AzureId(s, None, None)) == "/subscriptions/" + s
  {
    assert "/" + "subscriptions" + "/" == "/subscriptions/";
  }

  lemma FullText(s: string, g: string, p: string, t: string, n: string, tail: string)
    ensures Render(AzureId(s, Some(g), Some(Resource(p, t, n, Some(tail)))))
            == "/subscriptions/" + s + "/resourceGroups/" + g + "/providers/" + p + "/" + t + "/" + n + "/" + tail
  {
    assert "/" + "subscriptions" + "/" == "/subscriptions/";
    assert "/" + "resourceGroups" + "/" == "/resourceGroups/";
    assert "/" + "providers" + "/" == "/providers/";
    var head := "/subscriptions/" + s;
    assert head + ("/" + "resourceGroups" + "/" + g) == head + "/resourceGroups/" + g;
    var longer := head + "/resourceGroups/" + g;
    assert longer + ("/" + "providers" + "/" + p + "/" + t + "/" + n + ("/" + tail))
        == longer + "/providers/" + p + "/" + t + "/" + n + "/" + tail;
  }

  /** Checking `is_valid` first, as the field validator does, rejects nothing more. */
  lemma ValidateIsConstruct(s: string, isUuid: string -> bool)
    ensures (if IsValid(s) then Construct(s, isUuid) else None) == Construct(s, isUuid)
  {
    ValidIffParams(s);
  }
}
