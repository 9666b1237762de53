/** Federated credentials for GitHub: the subjects generated for repositories, environments, branches and tags. */
module OidcSubjects {
  import opened Wrappers
  import opened Text
  import opened Counting
  import opened Naming

  const COLON: set<char> := {':'}

  datatype Credential = Credential(name: string, subject: string)

  /** The lists that subjects are made from. */
  datatype Sources = Sources(environments: seq<string>, branches: seq<string>, tags: seq<string>, pullRequest: bool)

  function Prefixed(head: string, items: seq<string>): (r: seq<string>)
    ensures |r| == |items| && forall i :: 0 <= i < |items| ==> r[i] == head + items[i]
  {
    seq(|items|, i requires 0 <= i < |items| => head + items[i])
  }

  /** What follows the repository in its subjects, in the order generated. */
  function Endings(s: Sources): seq<string> {
    Prefixed(":environment:", s.environments)
    + Prefixed(":ref:refs/heads/", s.branches)
    + Prefixed(":ref:refs/tags/", s.tags)
    + (if s.pullRequest then [":pull_request"] else [])
  }

  function RepoPrefix(org: string, repo: string): string { "repo:" + org + "/" + repo }

  function AllSubjects(org: string, repos: seq<string>, s: Sources): seq<string> {
    if repos == [] then []
    else
      var n := |repos| - 1;
      AllSubjects(org, repos[..n], s) + Prefixed(RepoPrefix(org, repos[n]), Endings(s))
  }

  /** A credential for a subject: its name is the subject put through `fmt_name`. */
  function CredentialFor(subject: string): Credential { Credential(FmtOne(subject, "-", LowerCase), subject) }

  function CredentialsFor(subjects: seq<string>): (r: seq<Credential>)
    ensures |r| == |subjects| && forall i :: 0 <= i < |subjects| ==> r[i].subject == subjects[i]
  {
    seq(|subjects|, i requires 0 <= i < |subjects| => CredentialFor(subjects[i]))
  }

  /** The inner loop of `credentials`. */
  method AppendCredentials(creds: seq<Credential>, subjects: seq<string>, ghost before: seq<string>)
    returns (more: seq<Credential>)
    requires creds == CredentialsFor(before)
    ensures more == CredentialsFor(before + subjects)
  {
    more := creds;
    assert before + subjects[..0] == before;
    for k := 0 to |subjects|
      invariant more == CredentialsFor(before + subjects[..k])
    {
      more := more + [CredentialFor(subjects[k])];
      assert before + subjects[..k + 1] == before + subjects[..k] + [subjects[k]];
    }
    assert subjects[..|subjects|] == subjects;
  }

  class GitHubCredentials {
    const org: string
    const repos: seq<string>
    const pullRequest: bool
    var environments: Option<seq<string>>
    var branches: Option<seq<string>>
    var tags: Option<seq<string>>

    constructor (org: string, repos: seq<string>, environments: Option<seq<string>>, branches: Option<seq<string>>,
                 tags: Option<seq<string>>, pullRequest: bool)
      ensures this.org == org && this.repos == repos && this.pullRequest == pullRequest
      ensures this.environments == environments && this.branches == branches && this.tags == tags
    {
      this.org, this.repos, this.pullRequest := org, repos, pullRequest;
      this.environments, this.branches, this.tags := environments, branches, tags;
    }

    /** The lists with None read as empty. */
    function Lists(): Sources
      reads this
    {
      Sources(environments.GetOr([]), branches.GetOr([]), tags.GetOr([]), pullRequest)
    }

    /**
     `credentials`: absent lists are rewritten to empty ones in place, which changes neither this
     answer nor that of a later call.
     */
    method Credentials() returns (creds: seq<Credential>)
      modifies this
      ensures creds == CredentialsFor(AllSubjects(org, repos, old(Lists())))
      ensures environments.GetOr([]) == old(environments).GetOr([])
      ensures branches.GetOr([]) == old(branches).GetOr([]) && tags.GetOr([]) == old(tags).GetOr([])
      ensures Listing(creds, org, repos, old(environments).GetOr([]), old(branches).GetOr([]), old(tags).GetOr([]),
                      pullRequest)
      ensures repos != [] ==> environments.Some? && branches.Some? && tags.Some?
    {
      creds := [];
      ghost var s := Lists();
      for i := 0 to |repos|
        invariant Lists() == s
        invariant i > 0 ==> environments.Some? && branches.Some? && tags.Some?
        invariant creds == CredentialsFor(AllSubjects(org, repos[..i], s))
      {
        var prefix := RepoPrefix(org, repos[i]);
        environments := Some(environments.GetOr([]));
        branches := Some(branches.GetOr([]));
        tags := Some(tags.GetOr([]));

        var subjects := Prefixed(prefix + ":environment:", environments.value);
        subjects := subjects + Prefixed(prefix + ":ref:refs/heads/", branches.value);
        subjects := subjects + Prefixed(prefix + ":ref:refs/tags/", tags.value);
        subjects := subjects + (if pullRequest then [prefix + ":pull_request"] else []);
        SubjectsAreEndings(prefix, s);
        creds := AppendCredentials(creds, subjects, AllSubjects(org, repos[..i], s));
        assert repos[..i + 1][..i] == repos[..i];
      }
      assert repos[..|repos|] == repos;
      SubjectsListed(org, repos, s);
    }
  }

  /** The four lists of a repository are its endings behind the prefix. */
  lemma SubjectsAreEndings(prefix: string, s: Sources)
    ensures Prefixed(prefix + ":environment:", s.environments)
            + Prefixed(prefix + ":ref:refs/heads/", s.branches)
            + Prefixed(prefix + ":ref:refs/tags/", s.tags)
            + (if s.pullRequest then [prefix + ":pull_request"] else [])
            == Prefixed(prefix, Endings(s))
  {
    PrefixTwice(prefix, ":environment:", s.environments);
    PrefixTwice(prefix, ":ref:refs/heads/", s.branches);
    PrefixTwice(prefix, ":ref:refs/tags/", s.tags);
    var e, b, t := Prefixed(":environment:", s.environments), Prefixed(":ref:refs/heads/", s.branches),
                   Prefixed(":ref:refs/tags/", s.tags);
    var last := if s.pullRequest then [":pull_request"] else [];
    PrefixConcat(prefix, e + b + t, last);
    PrefixConcat(prefix, e + b, t);
    PrefixConcat(prefix, e, b);
  }

  lemma PrefixTwice(prefix: string, head: string, items: seq<string>)
    ensures Prefixed(prefix + head, items) == Prefixed(prefix, Prefixed(head, items))
  {
    assert forall i :: 0 <= i < |items| ==> prefix + head + items[i] == prefix + (head + items[i]);
  }

  lemma PrefixConcat(prefix: string, a: seq<string>, b: seq<string>)
    ensures Prefixed(prefix, a + b) == Prefixed(prefix, a) + Prefixed(prefix, b)
  {}

  // ---------------------------------------------------------------- how many, and how different

  /** One subject per repository and environment, branch, tag or pull request. */
  lemma {:induction false} SubjectCount(org: string, repos: seq<string>, s: Sources)
    ensures |AllSubjects(org, repos, s)|
            == |repos| * (|s.environments| + |s.branches| + |s.tags| + (if s.pullRequest then 1 else 0))
  {
    if repos != [] {
      var n := |repos| - 1;
      SubjectCount(org, repos[..n], s);
      EndingsCount(s);
      var each := |s.environments| + |s.branches| + |s.tags| + (if s.pullRequest then 1 else 0);
      assert (n + 1) * each == n * each + each;
    }
  }

  lemma EndingsCount(s: Sources)
    ensures |Endings(s)| == |s.environments| + |s.branches| + |s.tags| + (if s.pullRequest then 1 else 0)
  {}

  /** The credentials of one repository, kind by kind. */
  predicate RepoListing(creds: seq<Credential>, org: string, repo: string, environments: seq<string>,
                        branches: seq<string>, tags: seq<string>, pullRequest: bool)
  {
    var e, b, t := |environments|, |branches|, |tags|;
    && |creds| == e + b + t + (if pullRequest then 1 else 0)
    && (forall k :: 0 <= k < e ==> creds[k].subject == "repo:" + org + "/" + repo + ":environment:" + environments[k])
    && (forall k :: 0 <= k < b ==>
          creds[e + k].subject == "repo:" + org + "/" + repo + ":ref:refs/heads/" + branches[k])
    && (forall k :: 0 <= k < t ==> creds[e + b + k].subject == "repo:" + org + "/" + repo + ":ref:refs/tags/" + tags[k])
    && (pullRequest ==> creds[e + b + t].subject == "repo:" + org + "/" + repo + ":pull_request")
  }

  /** Slice `i` of slices of one length. */
  function Slice<T>(s: seq<T>, i: nat, each: nat): seq<T> {
    if i * each + each <= |s| then s[i * each..i * each + each] else []
  }

  /** All credentials, repository by repository, each named after its subject. */
  predicate Listing(creds: seq<Credential>, org: string, repos: seq<string>, environments: seq<string>,
                    branches: seq<string>, tags: seq<string>, pullRequest: bool)
  {
    var each := |environments| + |branches| + |tags| + (if pullRequest then 1 else 0);
    && |creds| == |repos| * each
    && (forall i :: 0 <= i < |repos| ==>
          RepoListing(Slice(creds, i, each), org, repos[i], environments, branches, tags, pullRequest))
    && forall i :: 0 <= i < |creds| ==> creds[i].name == Norm(creds[i].subject)
  }

  /** From position `at` on stand the items, each behind the head. */
  predicate Stand(subjects: seq<string>, at: nat, head: string, items: seq<string>) {
    at + |items| <= |subjects| && forall k :: 0 <= k < |items| ==> subjects[at + k] == head + items[k]
  }

  lemma StandBetween(before: seq<string>, head: string, items: seq<string>, after: seq<string>)
    ensures Stand(before + Prefixed(head, items) + after, |before|, head, items)
  {}

  lemma Regrouped(e: seq<string>, b: seq<string>, t: seq<string>, last: seq<string>)
    ensures e + b + t + last == [] + e + (b + t + last)
    ensures e + b + t + last == e + b + (t + last)
  {}

  /** The subjects of one repository by their position. */
  lemma OwnPositions(eh: string, bh: string, th: string, last: seq<string>, s: Sources, subjects: seq<string>)
    requires subjects == Prefixed(eh, s.environments) + Prefixed(bh, s.branches) + Prefixed(th, s.tags) + last
    ensures |subjects| == |s.environments| + |s.branches| + |s.tags| + |last|
    ensures Stand(subjects, 0, eh, s.environments)
    ensures Stand(subjects, |s.environments|, bh, s.branches)
    ensures Stand(subjects, |s.environments| + |s.branches|, th, s.tags)
    ensures last != [] ==> subjects[|s.environments| + |s.branches| + |s.tags|] == last[0]
  {
    var e, b, t := Prefixed(eh, s.environments), Prefixed(bh, s.branches), Prefixed(th, s.tags);
    Regrouped(e, b, t, last);
    StandBetween([], eh, s.environments, b + t + last);
    StandBetween(e, bh, s.branches, t + last);
    StandBetween(e + b, th, s.tags, last);
  }

  lemma OwnListing(org: string, repo: string, s: Sources)
    ensures RepoListing(CredentialsFor(Prefixed(RepoPrefix(org, repo), Endings(s))), org, repo,
                        s.environments, s.branches, s.tags, s.pullRequest)
  {
    var head := RepoPrefix(org, repo);
    SubjectsAreEndings(head, s);
    OwnPositions(head + ":environment:", head + ":ref:refs/heads/", head + ":ref:refs/tags/",
                 if s.pullRequest then [head + ":pull_request"] else [], s, Prefixed(head, Endings(s)));
  }

  lemma CredentialsMore(subjects: seq<string>, more: seq<string>)
    ensures CredentialsFor(subjects + more) == CredentialsFor(subjects) + CredentialsFor(more)
  {}

  lemma SliceFits(i: nat, n: nat, each: nat)
    requires i < n
    ensures i * each + each <= n * each
  {
    assert n * each == i * each + each + (n - i - 1) * each;
    assert (n - i - 1) * each >= 0;
  }

  lemma SliceOf<T>(before: seq<T>, own: seq<T>, n: nat, i: nat, each: nat)
    requires |before| == n * each && |own| == each && i <= n
    ensures Slice(before + own, i, each) == if i < n then Slice(before, i, each) else own
  {
    if i < n {
      SliceFits(i, n, each);
      var at := i * each;
      assert (before + own)[at..at + each] == before[at..at + each];
    } else {
      assert (before + own)[|before|..|before| + each] == own;
    }
  }

  /** Every repository has its slice. */
  ghost predicate Slices(creds: seq<Credential>, org: string, repos: seq<string>, s: Sources, each: nat) {
    forall i: nat :: i < |repos| ==>
      RepoListing(Slice(creds, i, each), org, repos[i], s.environments, s.branches, s.tags, s.pullRequest)
  }

  lemma SlicesNext(before: seq<Credential>, own: seq<Credential>, org: string, repos: seq<string>, s: Sources,
                   each: nat)
    requires repos != [] && |before| == (|repos| - 1) * each && |own| == each
    requires Slices(before, org, repos[..|repos| - 1], s, each)
    requires RepoListing(own, org, repos[|repos| - 1], s.environments, s.branches, s.tags, s.pullRequest)
    ensures Slices(before + own, org, repos, s, each)
  {
    var n := |repos| - 1;
    forall i: nat | i < |repos|
      ensures RepoListing(Slice(before + own, i, each), org, repos[i], s.environments, s.branches, s.tags,
                          s.pullRequest)
    {
      SliceOf(before, own, n, i, each);
      assert i < n ==> repos[..n][i] == repos[i];
    }
  }

  lemma {:induction false} SubjectsSliced(org: string, repos: seq<string>, s: Sources)
    ensures Slices(CredentialsFor(AllSubjects(org, repos, s)), org, repos, s, |Endings(s)|)
  {
    if repos != [] {
      var n := |repos| - 1;
      var subjects, more := AllSubjects(org, repos[..n], s), Prefixed(RepoPrefix(org, repos[n]), Endings(s));
      SubjectsSliced(org, repos[..n], s);
      OwnListing(org, repos[n], s);
      EndingsCount(s);
      SubjectCount(org, repos[..n], s);
      CredentialsMore(subjects, more);
      SlicesNext(CredentialsFor(subjects), CredentialsFor(more), org, repos, s, |Endings(s)|);
    }
  }

  lemma SubjectsListed(org: string, repos: seq<string>, s: Sources)
    ensures Listing(CredentialsFor(AllSubjects(org, repos, s)), org, repos, s.environments, s.branches, s.tags,
                    s.pullRequest)
  {
    EndingsCount(s);
    SubjectCount(org, repos, s);
    SubjectNames(AllSubjects(org, repos, s));
    SubjectsSliced(org, repos, s);
  }

  lemma SubjectNames(subjects: seq<string>)
    ensures forall i :: 0 <= i < |subjects| ==>
              CredentialsFor(subjects)[i].name == Norm(CredentialsFor(subjects)[i].subject)
  {
    NamesAreNormal(subjects);
    assert forall i :: 0 <= i < |subjects| ==> NamesOf(CredentialsFor(subjects))[i] == CredentialsFor(subjects)[i].name;
  }

  lemma PrefixedDistinct(head: string, items: seq<string>)
    ensures Distinct(Prefixed(head, items)) <==> Distinct(items)
  {
    forall i, j | 0 <= i < j < |items|
      ensures Prefixed(head, items)[i] == Prefixed(head, items)[j] <==> items[i] == items[j]
    {
      assert (head + items[i])[|head|..] == items[i] && (head + items[j])[|head|..] == items[j];
    }
  }

  /** Endings of different kinds differ, so the endings are distinct exactly when each list is. */
  lemma EndingsDistinct(s: Sources)
    ensures Distinct(Endings(s)) <==> Distinct(s.environments) && Distinct(s.branches) && Distinct(s.tags)
  {
    var last := if s.pullRequest then [":pull_request"] else [];
    FourHeads(":environment:", ":ref:refs/heads/", ":ref:refs/tags/", last, s);
  }

  /** The heads of the kinds are told apart by their second, and two of them by their eleventh, character. */
  lemma FourHeads(e: string, b: string, t: string, last: seq<string>, s: Sources)
    requires |e| > 1 && |b| > 10 && |t| > 10 && e[1] == 'e' && b[1] == t[1] == 'r' && b[10] == 'h' && t[10] == 't'
    requires |last| <= 1 && forall x :: x in last ==> |x| > 1 && x[1] == 'p'
    ensures Distinct(Prefixed(e, s.environments) + Prefixed(b, s.branches) + Prefixed(t, s.tags) + last)
            <==> Distinct(s.environments) && Distinct(s.branches) && Distinct(s.tags)
  {
    PrefixedDistinct(e, s.environments);
    PrefixedDistinct(b, s.branches);
    PrefixedDistinct(t, s.tags);
    PrefixedChars(e, s.environments, 1);
    PrefixedChars(b, s.branches, 1);
    PrefixedChars(b, s.branches, 10);
    PrefixedChars(t, s.tags, 1);
    PrefixedChars(t, s.tags, 10);
    FourKinds(Prefixed(e, s.environments), Prefixed(b, s.branches), Prefixed(t, s.tags), last);
  }

  lemma PrefixedChars(head: string, items: seq<string>, pos: nat)
    requires pos < |head|
    ensures forall x :: x in Prefixed(head, items) ==> |x| >= |head| && x[0] == head[0] && x[pos] == head[pos]
  {}

  /** Lists of strings told apart by their second, and two of them by their eleventh, character. */
  lemma FourKinds(e: seq<string>, b: seq<string>, t: seq<string>, last: seq<string>)
    requires forall x :: x in e ==> |x| > 1 && x[1] == 'e'
    requires forall x :: x in b ==> |x| > 10 && x[1] == 'r' && x[10] == 'h'
    requires forall x :: x in t ==> |x| > 10 && x[1] == 'r' && x[10] == 't'
    requires |last| <= 1 && forall x :: x in last ==> |x| > 1 && x[1] == 'p'
    ensures Distinct(e + b + t + last) <==> Distinct(e) && Distinct(b) && Distinct(t)
  {
    DistinctConcat(e, b);
    DistinctConcat(e + b, t);
    DistinctConcat(e + b + t, last);
  }

  // ---------------------------------------------------------------- heads and tails

  /** Every head followed by every tail, in the order of the loops. */
  function Products(heads: seq<string>, tails: seq<string>): seq<string> {
    if heads == [] then []
    else
      var n := |heads| - 1;
      Products(heads[..n], tails) + Prefixed(heads[n], tails)
  }

  /** `y` continues `x` by a text that leads from one tail to another. */
  ghost predicate Bridge(x: string, y: string, tails: seq<string>) {
    |x| < |y| && x <= y && exists b :: 0 <= b < |tails| && y[|x|..] + tails[b] in tails
  }

  ghost predicate Bridged(heads: seq<string>, tails: seq<string>) {
    exists i, j :: 0 <= i < |heads| && 0 <= j < |heads| && Bridge(heads[i], heads[j], tails)
  }

  lemma BridgeMeets(x: string, y: string, tails: seq<string>, a: nat, b: nat)
    requires a < |tails| && b < |tails| && x + tails[a] == y + tails[b] && |x| < |y|
    ensures Bridge(x, y, tails)
  {
    assert x == (x + tails[a])[..|x|] == (y + tails[b])[..|x|] == y[..|x|];
    assert tails[a] == (x + tails[a])[|x|..] == (y + tails[b])[|x|..] == y[|x|..] + tails[b];
  }

  lemma BridgeCrosses(x: string, y: string, tails: seq<string>)
    requires Bridge(x, y, tails)
    ensures exists z :: z in Prefixed(x, tails) && z in Prefixed(y, tails)
  {
    var b :| 0 <= b < |tails| && y[|x|..] + tails[b] in tails;
    var a :| 0 <= a < |tails| && tails[a] == y[|x|..] + tails[b];
    assert y == x + y[|x|..];
    var z := x + tails[a];
    assert z == y + tails[b];
    assert z == Prefixed(x, tails)[a];
    assert z == Prefixed(y, tails)[b];
    assert z in Prefixed(x, tails) && z in Prefixed(y, tails);
  }

  lemma SameLength(x: string, y: string, p: string, q: string)
    requires x + p == y + q && |x| == |y|
    ensures x == y
  {
    assert x == (x + p)[..|x|] == (y + q)[..|y|] == y;
  }

  /** Different heads share a product exactly when one of them bridges to the other. */
  lemma SharedProduct(x: string, y: string, tails: seq<string>)
    requires x != y
    ensures (exists z :: z in Prefixed(x, tails) && z in Prefixed(y, tails))
            <==> Bridge(x, y, tails) || Bridge(y, x, tails)
  {
    if z :| z in Prefixed(x, tails) && z in Prefixed(y, tails) {
      var a :| 0 <= a < |tails| && Prefixed(x, tails)[a] == z;
      var b :| 0 <= b < |tails| && Prefixed(y, tails)[b] == z;
      if |x| < |y| {
        BridgeMeets(x, y, tails, a, b);
      } else if |y| < |x| {
        BridgeMeets(y, x, tails, b, a);
      } else {
        SameLength(x, y, tails[a], tails[b]);
        assert false;
      }
    }
    if Bridge(x, y, tails) {
      BridgeCrosses(x, y, tails);
    } else if Bridge(y, x, tails) {
      BridgeCrosses(y, x, tails);
    }
  }

  lemma {:induction false} ProductFrom(heads: seq<string>, tails: seq<string>, z: string)
    ensures z in Products(heads, tails) <==> exists i :: 0 <= i < |heads| && z in Prefixed(heads[i], tails)
  {
    if heads != [] {
      var n := |heads| - 1;
      ProductFrom(heads[..n], tails, z);
      assert forall i :: 0 <= i < n ==> heads[..n][i] == heads[i];
    }
  }

  /** The last head shares nothing with the others exactly when it is new and there is no bridge to or from it. */
  lemma LastApart(heads: seq<string>, tails: seq<string>)
    requires heads != [] && tails != []
    ensures var n := |heads| - 1;
            (forall z :: z in Products(heads[..n], tails) ==> z !in Prefixed(heads[n], tails))
            <==> forall i :: 0 <= i < n ==>
                   && heads[i] != heads[n]
                   && !Bridge(heads[i], heads[n], tails) && !Bridge(heads[n], heads[i], tails)
  {
    var n := |heads| - 1;
    forall z
      ensures z in Products(heads[..n], tails) <==> exists i :: 0 <= i < n && z in Prefixed(heads[i], tails)
    {
      ProductFrom(heads[..n], tails, z);
      assert forall i :: 0 <= i < n ==> heads[..n][i] == heads[i];
    }
    forall i | 0 <= i < n
      ensures (exists z :: z in Prefixed(heads[i], tails) && z in Prefixed(heads[n], tails))
              <==> heads[i] == heads[n] || Bridge(heads[i], heads[n], tails) || Bridge(heads[n], heads[i], tails)
    {
      if heads[i] == heads[n] {
        assert Prefixed(heads[n], tails)[0] in Prefixed(heads[n], tails);
      } else {
        SharedProduct(heads[i], heads[n], tails);
      }
    }
  }

  lemma BridgedLast(heads: seq<string>, tails: seq<string>)
    requires heads != []
    ensures var n := |heads| - 1;
            Bridged(heads, tails) <==>
              || Bridged(heads[..n], tails)
              || exists i :: 0 <= i < n && (Bridge(heads[i], heads[n], tails) || Bridge(heads[n], heads[i], tails))
  {
    var n := |heads| - 1;
    assert forall i :: 0 <= i < n ==> heads[..n][i] == heads[i];
    if Bridged(heads[..n], tails) {
      var i, j :| 0 <= i < n && 0 <= j < n && Bridge(heads[..n][i], heads[..n][j], tails);
      assert Bridge(heads[i], heads[j], tails);
    }
    if Bridged(heads, tails) {
      var i, j :| 0 <= i < |heads| && 0 <= j < |heads| && Bridge(heads[i], heads[j], tails);
      if i < n && j < n {
        assert Bridge(heads[..n][i], heads[..n][j], tails);
      }
    }
  }

  /** Products are distinct exactly when heads are, tails are, and no head bridges to another. */
  lemma {:induction false} ProductsDistinct(heads: seq<string>, tails: seq<string>)
    requires heads != [] && tails != []
    ensures Distinct(Products(heads, tails)) <==> Distinct(heads) && Distinct(tails) && !Bridged(heads, tails)
  {
    var n := |heads| - 1;
    var before := heads[..n];
    PrefixedDistinct(heads[n], tails);
    DistinctConcat(Products(before, tails), Prefixed(heads[n], tails));
    LastApart(heads, tails);
    BridgedLast(heads, tails);
    assert heads == before + [heads[n]];
    DistinctConcat(before, [heads[n]]);
    assert forall i :: 0 <= i < n ==> before[i] == heads[i];
    if n > 0 {
      ProductsDistinct(before, tails);
    }
  }

  // ---------------------------------------------------------------- when subjects are distinct

  function Root(org: string): string { "repo:" + org + "/" }

  lemma {:induction false} SubjectsAreProducts(org: string, repos: seq<string>, s: Sources)
    ensures AllSubjects(org, repos, s) == Prefixed(Root(org), Products(repos, Endings(s)))
  {
    if repos != [] {
      var n := |repos| - 1;
      SubjectsAreProducts(org, repos[..n], s);
      PrefixTwice(Root(org), repos[n], Endings(s));
      PrefixConcat(Root(org), Products(repos[..n], Endings(s)), Prefixed(repos[n], Endings(s)));
    }
  }

  /**
   The subjects of any configuration are distinct exactly when there are none, or repositories and
   lists are distinct and nothing bridges.
   */
  lemma SubjectsDistinctExactly(org: string, repos: seq<string>, s: Sources)
    ensures Distinct(AllSubjects(org, repos, s)) <==>
              || repos == [] || Endings(s) == []
              || (&& Distinct(repos) && !Bridged(repos, Endings(s))
                  && Distinct(s.environments) && Distinct(s.branches) && Distinct(s.tags))
  {
    if repos == [] || Endings(s) == [] {
      NoSubjects(org, repos, s);
    } else {
      SubjectsAreProducts(org, repos, s);
      PrefixedDistinct(Root(org), Products(repos, Endings(s)));
      ProductsDistinct(repos, Endings(s));
      EndingsDistinct(s);
    }
  }

  lemma NoSubjects(org: string, repos: seq<string>, s: Sources)
    requires repos == [] || Endings(s) == []
    ensures AllSubjects(org, repos, s) == []
  {
    EndingsCount(s);
    SubjectCount(org, repos, s);
  }

  lemma EndingsStart(s: Sources)
    ensures forall x :: x in Endings(s) ==> |x| > 0 && x[0] == ':'
  {}

  /** A repository without colons cannot continue another one into an ending. */
  lemma ColonFreeUnbridged(repos: seq<string>, s: Sources)
    requires AllFreeOf(repos, COLON)
    ensures !Bridged(repos, Endings(s))
  {
    EndingsStart(s);
  }

  /** With colon-free repositories the subjects are distinct exactly when repositories and lists are. */
  lemma SubjectsDistinct(org: string, repos: seq<string>, s: Sources)
    requires AllFreeOf(repos, COLON)
    ensures Distinct(AllSubjects(org, repos, s)) <==>
              || repos == [] || Endings(s) == []
              || (&& Distinct(repos)
                  && Distinct(s.environments) && Distinct(s.branches) && Distinct(s.tags))
  {
    ColonFreeUnbridged(repos, s);
    SubjectsDistinctExactly(org, repos, s);
  }

  // ---------------------------------------------------------------- when names are distinct

  /** What `fmt_name` makes of a text: every separator a hyphen, all in lower case. */
  function Norm(x: string): string { Lower(Replace(x, SEPARATORS, '-')) }

  function NormAll(items: seq<string>): (r: seq<string>)
    ensures |r| == |items| && forall i :: 0 <= i < |items| ==> r[i] == Norm(items[i])
  {
    seq(|items|, i requires 0 <= i < |items| => Norm(items[i]))
  }

  function NamesOf(creds: seq<Credential>): (r: seq<string>)
    ensures |r| == |creds| && forall i :: 0 <= i < |creds| ==> r[i] == creds[i].name
  {
    seq(|creds|, i requires 0 <= i < |creds| => creds[i].name)
  }

  lemma NamesAreNormal(subjects: seq<string>)
    ensures NamesOf(CredentialsFor(subjects)) == NormAll(subjects)
  {
    forall i | 0 <= i < |subjects|
      ensures CredentialFor(subjects[i]).name == Norm(subjects[i])
    {
      FmtHyphen(subjects[i]);
    }
  }

  lemma NormConcat(a: string, b: string)
    ensures Norm(a + b) == Norm(a) + Norm(b)
  {}

  lemma NormPrefixed(head: string, items: seq<string>)
    ensures NormAll(Prefixed(head, items)) == Prefixed(Norm(head), NormAll(items))
  {
    forall i | 0 <= i < |items|
      ensures Norm(head + items[i]) == Norm(head) + Norm(items[i])
    {
      NormConcat(head, items[i]);
    }
  }

  lemma NormAllConcat(a: seq<string>, b: seq<string>)
    ensures NormAll(a + b) == NormAll(a) + NormAll(b)
  {}

  lemma {:induction false} NormProducts(heads: seq<string>, tails: seq<string>)
    ensures NormAll(Products(heads, tails)) == Products(NormAll(heads), NormAll(tails))
  {
    if heads != [] {
      var n := |heads| - 1;
      NormProducts(heads[..n], tails);
      NormPrefixed(heads[n], tails);
      NormAllConcat(Products(heads[..n], tails), Prefixed(heads[n], tails));
      assert NormAll(heads)[..n] == NormAll(heads[..n]);
    }
  }

  /** The normalised endings keep the marks that tell the kinds apart. */
  lemma NormEndings(s: Sources)
    ensures Distinct(NormAll(Endings(s)))
            <==> Distinct(NormAll(s.environments)) && Distinct(NormAll(s.branches)) && Distinct(NormAll(s.tags))
  {
    var e, b, t := Prefixed(":environment:", s.environments), Prefixed(":ref:refs/heads/", s.branches),
                   Prefixed(":ref:refs/tags/", s.tags);
    var last := if s.pullRequest then [":pull_request"] else [];
    NormAllConcat(e + b + t, last);
    NormAllConcat(e + b, t);
    NormAllConcat(e, b);
    NormPrefixed(":environment:", s.environments);
    NormPrefixed(":ref:refs/heads/", s.branches);
    NormPrefixed(":ref:refs/tags/", s.tags);
    FourHeads(Norm(":environment:"), Norm(":ref:refs/heads/"), Norm(":ref:refs/tags/"), NormAll(last),
              Sources(NormAll(s.environments), NormAll(s.branches), NormAll(s.tags), s.pullRequest));
  }

  /** The credential names of any configuration are distinct exactly when all this holds up to separators and case. */
  lemma NamesDistinctExactly(org: string, repos: seq<string>, s: Sources)
    ensures Distinct(NamesOf(CredentialsFor(AllSubjects(org, repos, s)))) <==>
              || repos == [] || Endings(s) == []
              || (&& Distinct(NormAll(repos)) && !Bridged(NormAll(repos), NormAll(Endings(s)))
                  && Distinct(NormAll(s.environments)) && Distinct(NormAll(s.branches)) && Distinct(NormAll(s.tags)))
  {
    if repos == [] || Endings(s) == [] {
      NoSubjects(org, repos, s);
    } else {
      NormalNames(org, repos, s);
    }
  }

  lemma NormalNames(org: string, repos: seq<string>, s: Sources)
    requires repos != [] && Endings(s) != []
    ensures Distinct(NamesOf(CredentialsFor(AllSubjects(org, repos, s)))) <==>
              && Distinct(NormAll(repos)) && !Bridged(NormAll(repos), NormAll(Endings(s)))
              && Distinct(NormAll(s.environments)) && Distinct(NormAll(s.branches)) && Distinct(NormAll(s.tags))
  {
    var products := Products(repos, Endings(s));
    NamesAreNormal(AllSubjects(org, repos, s));
    SubjectsAreProducts(org, repos, s);
    NormPrefixed(Root(org), products);
    NormProducts(repos, Endings(s));
    PrefixedDistinct(Norm(Root(org)), NormAll(products));
    ProductsDistinct(NormAll(repos), NormAll(Endings(s)));
    NormEndings(s);
  }

  /** For one repository only the three lists matter. */
  lemma OneRepositoryNames(org: string, repo: string, s: Sources)
    ensures Distinct(NamesOf(CredentialsFor(AllSubjects(org, [repo], s)))) <==>
              Distinct(NormAll(s.environments)) && Distinct(NormAll(s.branches)) && Distinct(NormAll(s.tags))
  {
    NamesDistinctExactly(org, [repo], s);
    EndingsCount(s);
    assert NormAll([repo]) == [Norm(repo)];
  }

  /** Branches that differ only in a separator share a credential name. */
  lemma BranchNamesCollide(org: string, repo: string, s: Sources)
    requires s == Sources([], ["a/b", "a-b"], [], false)
    ensures !Distinct(NamesOf(CredentialsFor(AllSubjects(org, [repo], s))))
  {
    OneRepositoryNames(org, repo, s);
    assert Norm("a/b") == Norm("a-b") by {
      assert Replace("a/b", SEPARATORS, '-') == Replace("a-b", SEPARATORS, '-');
    }
    assert NormAll(s.branches)[0] == NormAll(s.branches)[1];
  }

  /** The environments of the next lemma, whose subjects are told apart. */
  function Nested(x: string): Sources { Sources(["environment-" + x, x], [], [], false) }

  lemma NestedSubjects(org: string, repo: string, more: string, x: string)
    requires FreeOf(repo, COLON) && FreeOf(more, COLON) && more != ""
    ensures Distinct(AllSubjects(org, [repo, repo + more], Nested(x)))
    ensures Endings(Nested(x)) == [":environment:" + ("environment-" + x), ":environment:" + x]
  {
    var repos, s := [repo, repo + more], Nested(x);
    assert |repos[0]| != |repos[1]|;
    assert |s.environments[0]| != |s.environments[1]|;
    FreeConcat(repo, more, COLON);
    assert AllFreeOf(repos, COLON);
    SubjectsDistinct(org, repos, s);
  }

  /** So do two repositories, one of which continues the other's name into an environment. */
  lemma RepositoryNamesCollide(org: string, repo: string, x: string)
    requires FreeOf(repo, COLON)
    ensures Distinct(AllSubjects(org, [repo, repo + "-environment"], Nested(x)))
    ensures !Distinct(NamesOf(CredentialsFor(AllSubjects(org, [repo, repo + "-environment"], Nested(x)))))
  {
    NestedSubjects(org, repo, "-environment", x);
    assert "-" + "environment" == "-environment" && ":" + "environment" + ":" == ":environment:"
        && "environment" + "-" == "environment-";
    EnvironmentNorms("environment");
    NormBridge(repo, "-environment", ":environment:", "environment-", x, Nested(x));
    NamesDistinctExactly(org, [repo, repo + "-environment"], Nested(x));
  }

  lemma EnvironmentNorms(word: string)
    ensures Norm("-" + word) + Norm(":" + word + ":") == Norm(":" + word + ":") + Norm(word + "-")
  {
    NormConcat("-", word);
    NormConcat(":" + word, ":");
    NormConcat(":", word);
    NormConcat(word, "-");
    assert Norm("-") == "-" && Norm(":") == "-";
  }

  lemma NormBridge(repo: string, more: string, e: string, item: string, x: string, s: Sources)
    requires Endings(s) == [e + (item + x), e + x] && more != ""
    requires Norm(more) + Norm(e) == Norm(e) + Norm(item)
    ensures Bridged(NormAll([repo, repo + more]), NormAll(Endings(s)))
  {
    var heads, tails := NormAll([repo, repo + more]), NormAll(Endings(s));
    NormConcat(repo, more);
    NormConcat(e, item + x);
    NormConcat(item, x);
    NormConcat(e, x);
    BridgeAt(heads[0], Norm(more), Norm(e), Norm(item), Norm(x), tails);
    assert Bridge(heads[0], heads[1], tails);
  }

  lemma BridgeAt(head: string, more: string, e: string, item: string, x: string, tails: seq<string>)
    requires more != "" && more + e == e + item && tails == [e + (item + x), e + x]
    ensures Bridge(head, head + more, tails)
  {
    assert (head + more)[|head|..] == more;
    assert more + (e + x) == (more + e) + x == e + (item + x);
    assert tails[1] == e + x && tails[0] in tails;
  }
}
