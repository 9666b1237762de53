/** `get_stack_output` and its cache of stack references, over single calls and whole runs. */
module StackOutputs {
  import opened Wrappers
  import opened Text
  import opened StackReferences

  /** A cached reference: its resource name is the reference text of the call that made it. */
  datatype StackReference = StackReference(name: string, stackName: string)

  /** What the service reports for an output; either value may be None. */
  datatype OutputDetails = OutputDetails(value: Json, secretValue: Json)

  type Backend = (string, string) -> OutputDetails

  datatype LookupError = NotAReference | MalformedReference | OutputNotFound

  /** Python truth of a value. */
  predicate Truthy(v: Json) {
    match v
    case Null => false
    case Bool(b) => b
    case Num(n) => n != 0
    case Str(s) => s != ""
    case List(items) => items != []
    case Dict(entries) => entries != map[]
  }

  /** What a call makes of the reported output. */
  function Extract(details: OutputDetails, path: Option<string>): Result<Json, LookupError> {
    var value := if Truthy(details.secretValue) then details.secretValue else details.value;
    var picked := if value.Dict? && path.GetOr("") != "" then DeepGet(value, path.value) else value;
    if picked == Null then Err(OutputNotFound) else Ok(picked)
  }

  /** The stack a reference text stands for. */
  function Target(ref: string, org: string): Result<StackRef, LookupError> {
    if !StartsWith(ref, SCHEME) then Err(NotAReference)
    else
      match ParseStackReference(ref, org)
      case None => Err(MalformedReference)
      case Some(r) => Ok(r)
  }

  /** The answer without any cache. */
  function Uncached(ref: string, org: string, backend: Backend): Result<Json, LookupError> {
    match Target(ref, org)
    case Err(e) => Err(e)
    case Ok(r) => Extract(backend(r.stack, r.output), r.path)
  }

  // ---------------------------------------------------------------- what an answer means

  /** The value that counts: the secret one unless it is None or empty in Python's sense. */
  function Reported(details: OutputDetails): Json {
    var s := details.secretValue;
    if s == Null || s == Bool(false) || s == Num(0) || s == Str("") || s == List([]) || s == Dict(map[])
    then details.value
    else s
  }

  /** Dictionaries lead from `d` along the keys to `v`. */
  ghost predicate Leads(d: Json, keys: seq<string>, v: Json) {
    exists values :: Chain(d, keys, values) && values[|keys|] == v
  }

  /** What a call answers, in terms of the reference and of what the service reports. */
  ghost predicate Answers(r: Result<Json, LookupError>, ref: string, org: string, backend: Backend) {
    if !("stack://" <= ref) then r == Err(NotAReference)
    else
      match ParseStackReference(ref, org)
      case None => r == Err(MalformedReference)
      case Some(p) =>
        var v := Reported(backend(p.stack, p.output));
        if v.Dict? && p.path != None && p.path != Some("") then
          var keys := Split(p.path.value, DOT);
          && (forall x :: Leads(v, keys, x) && x != Null ==> r == Ok(x))
          && (r.Ok? ==> r.value != Null && Leads(v, keys, r.value))
          && (r.Err? ==> r.error == OutputNotFound)
        else r == if v == Null then Err(OutputNotFound) else Ok(v)
  }

  /** The answer without a cache means that. */
  lemma UncachedAnswers(ref: string, org: string, backend: Backend)
    ensures Answers(Uncached(ref, org, backend), ref, org, backend)
  {
    if SCHEME <= ref && ParseStackReference(ref, org).Some? {
      var p := ParseStackReference(ref, org).value;
      var details := backend(p.stack, p.output);
      assert Reported(details) == if Truthy(details.secretValue) then details.secretValue else details.value;
      if Reported(details).Dict? && p.path != None && p.path != Some("") {
        var keys := Split(p.path.value, DOT);
        forall x | x != Null
          ensures Leads(Reported(details), keys, x) <==> Follow(Reported(details), keys) == x
        {
          FollowMeaning(Reported(details), keys, x);
        }
      }
    }
  }

  type Cache = map<string, StackReference>

  /** Each key holds a reference to that stack, whose own name parses back to the key. */
  ghost predicate CacheOk(cache: Cache, org: string) {
    forall k :: k in cache ==>
      && cache[k].stackName == k
      && Target(cache[k].name, org).Ok?
      && Target(cache[k].name, org).value.stack == k
  }

  /** The cache after one call: an unknown stack is added under the text of the call. */
  function CacheAfter(cache: Cache, ref: string, org: string): Cache {
    match Target(ref, org)
    case Err(_) => cache
    case Ok(r) => if r.stack in cache then cache else cache[r.stack := StackReference(ref, r.stack)]
  }

  function CacheAfterAll(cache: Cache, refs: seq<string>, org: string): Cache {
    if refs == [] then cache
    else CacheAfter(CacheAfterAll(cache, refs[..|refs| - 1], org), refs[|refs| - 1], org)
  }

  class StackOutputs {
    const org: string
    const backend: Backend
    var knownStacks: Cache

    constructor (org: string, backend: Backend)
      ensures this.org == org && this.backend == backend && knownStacks == map[] && Valid()
    {
      this.org, this.backend, this.knownStacks := org, backend, map[];
    }

    ghost predicate Valid()
      reads this
    {
      CacheOk(knownStacks, org)
    }

    /** The output is fetched through the cached reference, and yet it is the uncached answer. */
    method GetStackOutput(ref: string) returns (r: Result<Json, LookupError>)
      requires Valid()
      modifies this
      ensures Valid()
      ensures knownStacks == CacheAfter(old(knownStacks), ref, org)
      ensures r == Uncached(ref, org, backend) && Answers(r, ref, org, backend)
    {
      UncachedAnswers(ref, org, backend);
      if !StartsWith(ref, SCHEME) {
        return Err(NotAReference);
      }
      var parsed := ParseStackReference(ref, org);
      if parsed == None {
        return Err(MalformedReference);
      }
      var target := parsed.value;
      var stack: StackReference;
      if target.stack in knownStacks {
        stack := knownStacks[target.stack];
      } else {
        stack := StackReference(ref, target.stack);
        knownStacks := knownStacks[target.stack := stack];
      }
      var details := backend(stack.stackName, target.output);
      var value := if Truthy(details.secretValue) then details.secretValue else details.value;
      if value.Dict? && target.path.GetOr("") != "" {
        value := DeepGet(value, target.path.value);
      }
      if value == Null {
        return Err(OutputNotFound);
      }
      return Ok(value);
    }

    /** A whole run of calls: every answer is the uncached one. */
    method Run(refs: seq<string>) returns (answers: seq<Result<Json, LookupError>>)
      requires Valid()
      modifies this
      ensures Valid()
      ensures knownStacks == CacheAfterAll(old(knownStacks), refs, org)
      ensures |answers| == |refs| && forall i :: 0 <= i < |refs| ==> answers[i] == Uncached(refs[i], org, backend)
      ensures forall i :: 0 <= i < |refs| ==> Answers(answers[i], refs[i], org, backend)
    {
      answers := [];
      for i := 0 to |refs|
        invariant Valid()
        invariant knownStacks == CacheAfterAll(old(knownStacks), refs[..i], org)
        invariant |answers| == i && forall k :: 0 <= k < i ==> answers[k] == Uncached(refs[k], org, backend)
      {
        var answer := GetStackOutput(refs[i]);
        answers := answers + [answer];
        assert refs[..i + 1][..i] == refs[..i];
      }
      assert refs[..|refs|] == refs;
      forall i | 0 <= i < |refs|
        ensures Answers(answers[i], refs[i], org, backend)
      {
        UncachedAnswers(refs[i], org, backend);
      }
    }
  }

  // ---------------------------------------------------------------- the cache after whole runs

  predicate FirstFor(refs: seq<string>, org: string, i: nat, stack: string) {
    && i < |refs|
    && Target(refs[i], org).Ok? && Target(refs[i], org).value.stack == stack
    && forall j :: 0 <= j < i ==> Target(refs[j], org).Ok? ==> Target(refs[j], org).value.stack != stack
  }

  /**
   After any run from the empty cache the keys are the stacks asked for, and each holds the
   reference made by the first call for it.
   */
  lemma {:induction false} CacheContents(refs: seq<string>, org: string, stack: string)
    ensures var cache := CacheAfterAll(map[], refs, org);
            && (stack in cache <==> exists i: nat :: FirstFor(refs, org, i, stack))
            && (stack in cache ==> cache[stack].stackName == stack
                                   && exists i: nat :: FirstFor(refs, org, i, stack) && cache[stack].name == refs[i])
  {
    if refs != [] {
      var n := |refs| - 1;
      var before := refs[..n];
      CacheContents(before, org, stack);
      forall i: nat
        ensures i < n ==> (FirstFor(refs, org, i, stack) <==> FirstFor(before, org, i, stack))
      {
      }
      if i: nat :| FirstFor(before, org, i, stack) {
        assert FirstFor(refs, org, i, stack);
        assert !FirstFor(refs, org, n, stack) by {
          assert refs[i] == before[i];
        }
      } else {
        NoneBefore(before, org, stack);
        assert Target(refs[n], org).Ok? && Target(refs[n], org).value.stack == stack <==> FirstFor(refs, org, n, stack);
      }
    }
  }

  lemma {:induction false} NoneBefore(refs: seq<string>, org: string, stack: string)
    requires forall i: nat :: !FirstFor(refs, org, i, stack)
    ensures forall j :: 0 <= j < |refs| ==> Target(refs[j], org).Ok? ==> Target(refs[j], org).value.stack != stack
  {
    if refs != [] {
      var n := |refs| - 1;
      forall i: nat
        ensures !FirstFor(refs[..n], org, i, stack)
      {
        assert FirstFor(refs[..n], org, i, stack) ==> FirstFor(refs, org, i, stack);
      }
      NoneBefore(refs[..n], org, stack);
      assert forall j :: 0 <= j < n ==> refs[..n][j] == refs[j];
      assert !FirstFor(refs, org, n, stack);
    }
  }

  lemma {:induction false} RunKeepsCacheOk(refs: seq<string>, org: string)
    ensures CacheOk(CacheAfterAll(map[], refs, org), org)
  {
    if refs != [] {
      RunKeepsCacheOk(refs[..|refs| - 1], org);
    }
  }

  /** After any run, references cached under different keys have different resource names. */
  lemma NamesDistinct(refs: seq<string>, org: string, k: string, l: string)
    requires k in CacheAfterAll(map[], refs, org) && l in CacheAfterAll(map[], refs, org) && k != l
    ensures CacheAfterAll(map[], refs, org)[k].name != CacheAfterAll(map[], refs, org)[l].name
  {
    RunKeepsCacheOk(refs, org);
  }
}
