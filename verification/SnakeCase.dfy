/** `_pascal_to_snake`: the key function of the flat metadata index. */
module SnakeCase {
  import opened Text

  const UNDERSCORE: set<char> := {'_'}

  /** A capital opens a word here: after a lower-case letter or digit, or as the last of a run of capitals. */
  predicate Boundary(name: string, i: nat)
    requires i < |name|
  {
    && 0 < i
    && IsUpper(name[i])
    && (|| IsLower(name[i - 1])
        || IsDigit(name[i - 1])
        || (IsUpper(name[i - 1]) && i + 1 < |name| && IsLower(name[i + 1])))
  }

  /** The rewritten name from position `i` on: an underscore at each boundary, all in lower case. */
  function SnakeFrom(name: string, i: nat): string
    requires i <= |name|
    decreases |name| - i
  {
    if i == |name| then ""
    else (if Boundary(name, i) then "_" else "") + [LowerChar(name[i])] + SnakeFrom(name, i + 1)
  }

  function PascalToSnake(name: string): string { SnakeFrom(name, 0) }

  predicate IsAlnum(c: char) { IsLetter(c) || IsDigit(c) }

  predicate AllAlnum(s: string) { forall i :: 0 <= i < |s| ==> IsAlnum(s[i]) }

  // ---------------------------------------------------------------- any name

  lemma {:induction false} SnakeDeletes(name: string, i: nat)
    requires i <= |name|
    ensures Without(SnakeFrom(name, i), UNDERSCORE) == Without(Lower(name[i..]), UNDERSCORE)
    decreases |name| - i
  {
    if i < |name| {
      SnakeDeletes(name, i + 1);
      var mark, c := if Boundary(name, i) then "_" else "", [LowerChar(name[i])];
      WithoutConcat(mark + c, SnakeFrom(name, i + 1), UNDERSCORE);
      WithoutConcat(mark, c, UNDERSCORE);
      WithoutConcat(c, Lower(name[i + 1..]), UNDERSCORE);
      assert Without(mark, UNDERSCORE) == "";
      assert Lower(name[i..]) == c + Lower(name[i + 1..]);
    }
  }

  /** The underscores are all that is added: deleting them gives the lower-cased name. */
  lemma SnakeKeepsLetters(name: string)
    ensures Without(PascalToSnake(name), UNDERSCORE) == Without(Lower(name), UNDERSCORE)
    ensures AllAlnum(name) ==> Without(PascalToSnake(name), UNDERSCORE) == Lower(name)
  {
    SnakeDeletes(name, 0);
    assert name[0..] == name;
    if AllAlnum(name) {
      assert forall i :: 0 <= i < |name| ==> Lower(name)[i] == LowerChar(name[i]);
      WithoutLength(Lower(name), UNDERSCORE);
    }
  }

  lemma {:induction false} SnakeNoUpper(name: string, i: nat)
    requires i <= |name|
    ensures forall k :: 0 <= k < |SnakeFrom(name, i)| ==> !IsUpper(SnakeFrom(name, i)[k])
    decreases |name| - i
  {
    if i < |name| {
      SnakeNoUpper(name, i + 1);
    }
  }

  lemma {:induction false} SnakeOfLower(s: string, i: nat)
    requires i <= |s| && forall k :: 0 <= k < |s| ==> !IsUpper(s[k])
    ensures SnakeFrom(s, i) == s[i..]
    decreases |s| - i
  {
    if i < |s| {
      SnakeOfLower(s, i + 1);
      assert s[i..] == [s[i]] + s[i + 1..];
    }
  }

  /** A second application changes nothing, whatever the name. */
  lemma SnakeTwice(name: string)
    ensures PascalToSnake(PascalToSnake(name)) == PascalToSnake(name)
  {
    SnakeNoUpper(name, 0);
    SnakeOfLower(PascalToSnake(name), 0);
    assert PascalToSnake(name)[0..] == PascalToSnake(name);
  }

  predicate NoDoubled(s: string) { forall k :: 0 < k < |s| ==> !(s[k - 1] == '_' && s[k] == '_') }

  lemma {:induction false} UnderscoresApart(name: string, i: nat)
    requires i <= |name| && AllAlnum(name)
    ensures NoDoubled(SnakeFrom(name, i))
    ensures SnakeFrom(name, i) != "" ==> SnakeFrom(name, i)[|SnakeFrom(name, i)| - 1] != '_'
    ensures i < |name| ==> SnakeFrom(name, i) != "" && (SnakeFrom(name, i)[0] == '_' <==> Boundary(name, i))
    decreases |name| - i
  {
    if i < |name| {
      UnderscoresApart(name, i + 1);
      assert LowerChar(name[i]) != '_';
    }
  }

  /** In the snake form of a name of letters and digits no underscore leads, trails or is doubled. */
  lemma UnderscoresSeparate(name: string)
    requires AllAlnum(name) && name != ""
    ensures var s := PascalToSnake(name); s != "" && s[0] != '_' && s[|s| - 1] != '_' && NoDoubled(s)
  {
    UnderscoresApart(name, 0);
  }

  // ---------------------------------------------------------------- names made of words

  /** A capital followed by at least one lower-case letter or digit, and nothing else. */
  predicate IsWord(w: string) {
    |w| >= 2 && IsUpper(w[0]) && forall i :: 1 <= i < |w| ==> IsLower(w[i]) || IsDigit(w[i])
  }

  predicate AllWords(words: seq<string>) { forall i :: 0 <= i < |words| ==> IsWord(words[i]) }

  function Concat(words: seq<string>): string { if words == [] then "" else words[0] + Concat(words[1..]) }

  function LowerAll(words: seq<string>): seq<string>
  {
    seq(|words|, i requires 0 <= i < |words| => Lower(words[i]))
  }

  // ---------------------------------------------------------------- names put together

  /** Boundaries look at the characters next to them only. */
  lemma BoundaryLocal(a: string, b: string)
    requires b != "" ==> !IsLower(b[0])
    ensures forall i :: 0 <= i < |a| ==> (Boundary(a + b, i) <==> Boundary(a, i))
    ensures forall k :: 1 <= k < |b| ==> (Boundary(a + b, |a| + k) <==> Boundary(b, k))
  {
    forall i | 0 <= i < |a|
      ensures Boundary(a + b, i) <==> Boundary(a, i)
    {
      assert i + 1 == |a| && b != "" ==> (a + b)[i + 1] == b[0];
    }
    forall k | 1 <= k < |b|
      ensures Boundary(a + b, |a| + k) <==> Boundary(b, k)
    {
      assert (a + b)[|a| + k - 1] == b[k - 1] && (a + b)[|a| + k] == b[k];
      assert k + 1 < |b| ==> (a + b)[|a| + k + 1] == b[k + 1];
    }
  }

  lemma {:induction false} SnakeSuffix(a: string, b: string, k: nat)
    requires 1 <= k <= |b|
    requires forall l :: 1 <= l < |b| ==> (Boundary(a + b, |a| + l) <==> Boundary(b, l))
    ensures SnakeFrom(a + b, |a| + k) == SnakeFrom(b, k)
    decreases |b| - k
  {
    if k < |b| {
      SnakeSuffix(a, b, k + 1);
      assert (a + b)[|a| + k] == b[k];
    }
  }

  lemma {:induction false} SnakePrefix(a: string, b: string, i: nat)
    requires i <= |a| && forall l :: 0 <= l < |a| ==> (Boundary(a + b, l) <==> Boundary(a, l))
    ensures SnakeFrom(a + b, i) == SnakeFrom(a, i) + SnakeFrom(a + b, |a|)
    decreases |a| - i
  {
    if i < |a| {
      SnakePrefix(a, b, i + 1);
      assert (a + b)[i] == a[i];
    }
  }

  /** A name is rewritten part by part, if the second does not begin with a small letter. */
  lemma SnakeConcat(a: string, b: string)
    requires b != "" && !IsLower(b[0])
    ensures PascalToSnake(a + b) == PascalToSnake(a) + (if Boundary(a + b, |a|) then "_" else "") + PascalToSnake(b)
  {
    BoundaryLocal(a, b);
    SnakePrefix(a, b, 0);
    SnakeSuffix(a, b, 1);
    assert (a + b)[|a|] == b[0];
  }

  /** A run of capitals. */
  predicate IsRun(run: string) { run != "" && forall i :: 0 <= i < |run| ==> IsUpper(run[i]) }

  /**
   `c` capitals and then small letters and digits; a digit comes first if there are two capitals or
   more.
   */
  predicate PieceWith(p: string, c: nat) {
    && p != "" && c <= |p|
    && (forall i :: 0 <= i < c ==> IsUpper(p[i]))
    && (forall i :: c <= i < |p| ==> IsLower(p[i]) || IsDigit(p[i]))
    && (2 <= c < |p| ==> IsDigit(p[c]))
  }

  ghost predicate IsPiece(p: string) { exists c: nat :: PieceWith(p, c) }

  /** Pieces of a name: all but the first begin with a capital, and a small letter is second after a run. */
  ghost predicate AllPieces(pieces: seq<string>) {
    && (forall i :: 0 <= i < |pieces| ==> IsPiece(pieces[i]))
    && (forall i :: 1 <= i < |pieces| ==> IsUpper(pieces[i][0]))
    && forall i :: 0 <= i < |pieces| - 1 && IsRun(pieces[i]) ==> |pieces[i + 1]| > 1 && IsLower(pieces[i + 1][1])
  }

  lemma WordIsPiece(w: string)
    requires IsWord(w)
    ensures IsPiece(w) && IsUpper(w[0]) && !IsRun(w)
  {
    assert PieceWith(w, 1);
    assert !IsUpper(w[1]);
  }

  lemma RunIsPiece(run: string)
    requires IsRun(run)
    ensures IsPiece(run) && IsUpper(run[0])
  {
    assert PieceWith(run, |run|);
  }

  lemma {:induction false} NoBoundary(p: string, i: nat)
    requires i <= |p| && forall k :: 0 <= k < |p| ==> !Boundary(p, k)
    ensures SnakeFrom(p, i) == Lower(p)[i..]
    decreases |p| - i
  {
    if i < |p| {
      NoBoundary(p, i + 1);
      assert Lower(p)[i..] == [Lower(p)[i]] + Lower(p)[i + 1..];
    }
  }

  /** A single piece is only lower-cased. */
  lemma PieceLower(p: string)
    requires IsPiece(p)
    ensures PascalToSnake(p) == Lower(p)
  {
    var c: nat :| PieceWith(p, c);
    NoBoundary(p, 0);
    assert Lower(p)[0..] == Lower(p);
  }

  lemma {:induction false} PiecesJoined(pieces: seq<string>)
    requires AllPieces(pieces) && pieces != []
    ensures PascalToSnake(Concat(pieces)) == Join(LowerAll(pieces), "_")
  {
    var p, rest := pieces[0], Concat(pieces[1..]);
    PieceLower(p);
    if |pieces| == 1 {
      assert p + rest == p;
      assert LowerAll(pieces) == [Lower(p)];
    } else {
      var q := pieces[1];
      assert IsPiece(q) && pieces[1..][0] == q;
      assert rest == q + Concat(pieces[1..][1..]);
      PiecesJoined(pieces[1..]);
      SnakeConcat(p, rest);
      PiecesMeet(p, q, Concat(pieces[1..][1..]));
      assert LowerAll(pieces)[1..] == LowerAll(pieces[1..]);
    }
  }

  /** Where two pieces meet there is a boundary. */
  lemma PiecesMeet(p: string, q: string, more: string)
    requires IsPiece(p) && q != "" && IsUpper(q[0]) && (IsRun(p) ==> |q| > 1 && IsLower(q[1]))
    ensures Boundary(p + (q + more), |p|)
  {
    var c: nat :| PieceWith(p, c);
    var name := p + (q + more);
    assert name[|p| - 1] == p[|p| - 1] && name[|p|] == q[0];
    assert |q| > 1 ==> name[|p| + 1] == q[1];
    assert c == |p| ==> IsRun(p);
  }

  /**
   On a name made of pieces, the result is the lower-cased pieces joined by underscores, and
   splitting at underscores gives them back.
   */
  lemma SnakeKeepsPieces(pieces: seq<string>)
    requires AllPieces(pieces) && pieces != []
    ensures PascalToSnake(Concat(pieces)) == Join(LowerAll(pieces), "_")
    ensures Split(PascalToSnake(Concat(pieces)), UNDERSCORE) == LowerAll(pieces)
  {
    PiecesJoined(pieces);
    LowerPiecesFree(pieces);
    SplitJoin(LowerAll(pieces), '_');
  }

  lemma LowerPiecesFree(pieces: seq<string>)
    requires AllPieces(pieces)
    ensures AllFreeOf(LowerAll(pieces), UNDERSCORE)
  {
    forall i, k | 0 <= i < |pieces| && 0 <= k < |pieces[i]|
      ensures LowerAll(pieces)[i][k] != '_'
    {
      assert IsPiece(pieces[i]);
      var c: nat :| PieceWith(pieces[i], c);
    }
  }

  /** Every name of letters and digits is made of pieces. */
  lemma {:induction false} PiecesOf(name: string) returns (pieces: seq<string>)
    requires AllAlnum(name) && name != ""
    ensures pieces != [] && AllPieces(pieces) && Concat(pieces) == name
  {
    if |name| == 1 {
      pieces := [name];
      assert PieceWith(name, if IsUpper(name[0]) then 1 else 0);
      assert Concat(pieces) == name + "";
    } else {
      var rest := PiecesOf(name[1..]);
      var q := rest[0];
      assert IsPiece(q);
      var c: nat :| PieceWith(q, c);
      assert name == [name[0]] + name[1..];
      if (IsUpper(name[0]) && c == 1 && |q| > 1 && IsLower(q[1])) || (!IsUpper(name[0]) && c > 0) {
        pieces := [[name[0]]] + rest;
        NewPiece(name[0], rest, c);
      } else {
        pieces := [[name[0]] + q] + rest[1..];
        LongerPiece(name[0], rest, c);
      }
    }
  }

  lemma NewPiece(x: char, rest: seq<string>, c: nat)
    requires IsAlnum(x) && rest != [] && AllPieces(rest) && PieceWith(rest[0], c) && c > 0
    requires IsUpper(x) ==> |rest[0]| > 1 && IsLower(rest[0][1])
    ensures AllPieces([[x]] + rest) && Concat([[x]] + rest) == [x] + Concat(rest)
  {
    var pieces := [[x]] + rest;
    assert PieceWith([x], if IsUpper(x) then 1 else 0);
    assert pieces[1..] == rest;
    forall i | 1 <= i < |pieces|
      ensures IsPiece(pieces[i]) && IsUpper(pieces[i][0])
    {
      assert pieces[i] == rest[i - 1];
    }
    forall i | 0 <= i < |pieces| - 1 && IsRun(pieces[i])
      ensures |pieces[i + 1]| > 1 && IsLower(pieces[i + 1][1])
    {
      assert i > 0 ==> pieces[i] == rest[i - 1] && pieces[i + 1] == rest[i];
    }
  }

  lemma LongerPiece(x: char, rest: seq<string>, c: nat)
    requires IsAlnum(x) && rest != [] && AllPieces(rest) && PieceWith(rest[0], c)
    requires IsUpper(x) ==> !(c == 1 && |rest[0]| > 1 && IsLower(rest[0][1]))
    requires !IsUpper(x) ==> c == 0
    ensures AllPieces([[x] + rest[0]] + rest[1..]) && Concat([[x] + rest[0]] + rest[1..]) == [x] + Concat(rest)
  {
    var p := [x] + rest[0];
    LongerPieceWith(x, rest[0], c);
    if IsRun(p) {
      LongerRun(x, rest[0]);
    }
    FirstReplaced(p, rest);
    FirstLonger(x, rest);
  }

  lemma FirstLonger(x: char, rest: seq<string>)
    requires rest != []
    ensures Concat([[x] + rest[0]] + rest[1..]) == [x] + Concat(rest)
  {
    assert ([[x] + rest[0]] + rest[1..])[1..] == rest[1..];
    assert [x] + (rest[0] + Concat(rest[1..])) == [x] + rest[0] + Concat(rest[1..]);
  }

  lemma LongerPieceWith(x: char, q: string, c: nat)
    requires IsAlnum(x) && PieceWith(q, c)
    requires IsUpper(x) ==> !(c == 1 && |q| > 1 && IsLower(q[1]))
    requires !IsUpper(x) ==> c == 0
    ensures IsPiece([x] + q)
  {
    assert PieceWith([x] + q, if IsUpper(x) then c + 1 else 0);
  }

  lemma LongerRun(x: char, q: string)
    requires q != "" && IsRun([x] + q)
    ensures IsRun(q)
  {
    assert forall i :: 0 <= i < |q| ==> q[i] == ([x] + q)[i + 1];
  }

  /** The first piece may be replaced by one that is a run only if it was. */
  lemma FirstReplaced(p: string, rest: seq<string>)
    requires rest != [] && AllPieces(rest) && IsPiece(p) && (IsRun(p) ==> IsRun(rest[0]))
    ensures AllPieces([p] + rest[1..])
  {
    var pieces := [p] + rest[1..];
    assert forall i :: 1 <= i < |pieces| ==> pieces[i] == rest[i];
  }

  /**
   So the snake form of any name of letters and digits is its pieces, lower-cased, with underscores
   between them.
   */
  lemma SnakeIsPieces(name: string) returns (pieces: seq<string>)
    requires AllAlnum(name) && name != ""
    ensures pieces != [] && AllPieces(pieces) && Concat(pieces) == name
    ensures PascalToSnake(name) == Join(LowerAll(pieces), "_")
  {
    pieces := PiecesOf(name);
    SnakeKeepsPieces(pieces);
  }

  /** On a name made of words, splitting the result at underscores gives back exactly the words. */
  lemma SnakeKeepsWords(words: seq<string>)
    requires AllWords(words) && words != []
    ensures PascalToSnake(Concat(words)) == Join(LowerAll(words), "_")
    ensures Split(PascalToSnake(Concat(words)), UNDERSCORE) == LowerAll(words)
  {
    forall i | 0 <= i < |words|
      ensures IsPiece(words[i]) && IsUpper(words[i][0]) && !IsRun(words[i])
    {
      WordIsPiece(words[i]);
    }
    SnakeKeepsPieces(words);
  }

  /** A run of capitals between words, for example in `AzureADAdministrator`. */
  lemma SnakeKeepsRun(pre: seq<string>, run: string, rest: seq<string>)
    requires AllWords(pre) && IsRun(run) && AllWords(rest) && (rest != [] ==> IsLower(rest[0][1]))
    ensures PascalToSnake(Concat(pre) + run + Concat(rest)) == Join(LowerAll(pre) + [Lower(run)] + LowerAll(rest), "_")
  {
    var pieces := pre + [run] + rest;
    RunPieces(pre, run, rest);
    SnakeKeepsPieces(pieces);
    ConcatRun(pre, run, rest);
    LowerRun(pre, run, rest);
  }

  lemma LowerRun(pre: seq<string>, run: string, rest: seq<string>)
    ensures LowerAll(pre + [run] + rest) == LowerAll(pre) + [Lower(run)] + LowerAll(rest)
  {}

  lemma ConcatRun(pre: seq<string>, run: string, rest: seq<string>)
    ensures Concat(pre + [run] + rest) == Concat(pre) + run + Concat(rest)
  {
    ConcatMore(pre + [run], rest);
    ConcatMore(pre, [run]);
    assert [run][1..] == [];
    assert Concat([run]) == run + "" == run;
  }

  lemma RunPieces(pre: seq<string>, run: string, rest: seq<string>)
    requires AllWords(pre) && IsRun(run) && AllWords(rest) && (rest != [] ==> IsLower(rest[0][1]))
    ensures AllPieces(pre + [run] + rest)
  {
    var pieces := pre + [run] + rest;
    RunIsPiece(run);
    forall i | 0 <= i < |pieces|
      ensures IsPiece(pieces[i]) && IsUpper(pieces[i][0])
      ensures i != |pre| ==> !IsRun(pieces[i])
    {
      if i < |pre| {
        WordIsPiece(pre[i]);
      } else if i > |pre| {
        WordIsPiece(rest[i - |pre| - 1]);
      }
    }
    assert rest != [] ==> pieces[|pre| + 1] == rest[0] && IsWord(rest[0]);
  }

  lemma {:induction false} ConcatMore(a: seq<string>, b: seq<string>)
    ensures Concat(a + b) == Concat(a) + Concat(b)
  {
    if a == [] {
      assert a + b == b;
    } else {
      ConcatMore(a[1..], b);
      assert (a + b)[0] == a[0] && (a + b)[1..] == a[1..] + b;
      assert a[0] + (Concat(a[1..]) + Concat(b)) == a[0] + Concat(a[1..]) + Concat(b);
    }
  }

  // ---------------------------------------------------------------- when two names collide

  /** The same letters in the same order up to case, with boundaries at the same places. */
  predicate SameShape(a: string, b: string) {
    |a| == |b| && forall p :: 0 <= p < |a| ==> SameAt(a, b, p)
  }

  predicate SameAt(a: string, b: string, p: nat)
    requires p < |a| && p < |b|
  {
    LowerChar(a[p]) == LowerChar(b[p]) && (Boundary(a, p) <==> Boundary(b, p))
  }

  lemma {:induction false} SnakeFromAgrees(a: string, b: string, i: nat)
    requires AllAlnum(a) && AllAlnum(b) && i <= |a| && i <= |b|
    ensures SnakeFrom(a, i) == SnakeFrom(b, i) <==> |a| == |b| && forall p :: i <= p < |a| ==> SameAt(a, b, p)
    decreases |a| - i
  {
    UnderscoresApart(a, i);
    UnderscoresApart(b, i);
    if i < |a| && i < |b| {
      SnakeFromAgrees(a, b, i + 1);
      HeadsAgree(a, b, i);
      assert |a| == |b| ==> ((forall p :: i <= p < |a| ==> SameAt(a, b, p))
                             <==> SameAt(a, b, i) && forall p :: i + 1 <= p < |a| ==> SameAt(a, b, p));
    }
  }

  /** Underscores are only marks, so equal forms agree in the first mark, letter and rest. */
  lemma HeadsAgree(a: string, b: string, i: nat)
    requires AllAlnum(a) && AllAlnum(b) && i < |a| && i < |b|
    ensures SnakeFrom(a, i) == SnakeFrom(b, i) <==> SameAt(a, b, i) && SnakeFrom(a, i + 1) == SnakeFrom(b, i + 1)
  {
    var s, t := SnakeFrom(a, i), SnakeFrom(b, i);
    UnderscoresApart(a, i);
    UnderscoresApart(b, i);
    if s == t {
      var skip := if Boundary(a, i) then 1 else 0;
      assert s[skip] == LowerChar(a[i]) && t[skip] == LowerChar(b[i]);
      assert s[skip + 1..] == SnakeFrom(a, i + 1) && t[skip + 1..] == SnakeFrom(b, i + 1);
    }
  }

  /** Two names of letters and digits get the same snake form exactly when they have the same shape. */
  lemma SnakeAgrees(a: string, b: string)
    requires AllAlnum(a) && AllAlnum(b)
    ensures PascalToSnake(a) == PascalToSnake(b) <==> SameShape(a, b)
  {
    SnakeFromAgrees(a, b, 0);
  }

  /** The first character is a capital and no two capitals stand together. */
  predicate CapitalsApart(name: string) {
    && AllAlnum(name)
    && (name != "" ==> IsUpper(name[0]))
    && forall p :: 0 < p < |name| && IsUpper(name[p]) ==> !IsUpper(name[p - 1])
  }

  /** The function is injective on names whose capitals stand apart. */
  lemma SnakeInjective(a: string, b: string)
    requires CapitalsApart(a) && CapitalsApart(b)
    ensures PascalToSnake(a) == PascalToSnake(b) <==> a == b
  {
    SnakeAgrees(a, b);
    if SameShape(a, b) {
      forall p | 0 <= p < |a|
        ensures a[p] == b[p]
      {
        assert SameAt(a, b, p);
        assert p > 0 ==> IsAlnum(a[p - 1]) && IsAlnum(b[p - 1]);
      }
    }
  }

  /** Names that differ beyond case never collide, whatever runs of capitals they hold. */
  lemma CaseTells(a: string, b: string)
    requires AllAlnum(a) && AllAlnum(b) && Lower(a) != Lower(b)
    ensures PascalToSnake(a) != PascalToSnake(b)
  {
    SnakeAgrees(a, b);
    if SameShape(a, b) {
      forall p | 0 <= p < |a|
        ensures Lower(a)[p] == Lower(b)[p]
      {
        assert SameAt(a, b, p);
      }
    }
  }

  /** A run of capitals loses its shape: these two service classes would share a key. */
  lemma SnakeCollision(a: string, b: string)
    requires a == "AFDEndpoint" && b == "AfdEndpoint"
    ensures a != b && PascalToSnake(a) == PascalToSnake(b)
  {
    assert a[0] != b[0] || a[1] != b[1];
    assert SameAt(a, b, 0) && SameAt(a, b, 1) && SameAt(a, b, 2) && SameAt(a, b, 3);
    SnakeAgrees(a, b);
  }

  lemma {:induction false} WordsApart(words: seq<string>)
    requires AllWords(words)
    ensures CapitalsApart(Concat(words))
    ensures Concat(words) != "" ==> !IsUpper(Concat(words)[|Concat(words)| - 1])
  {
    if words != [] {
      var w, rest := words[0], Concat(words[1..]);
      WordsApart(words[1..]);
      assert IsWord(w);
      var name := w + rest;
      forall p | 0 < p < |name| && IsUpper(name[p])
        ensures !IsUpper(name[p - 1])
      {
        assert p < |w| ==> !IsUpper(w[p]);
        assert p > |w| ==> name[p] == rest[p - |w|] && name[p - 1] == rest[p - |w| - 1];
      }
    }
  }

  lemma WordFromLower(w: string, v: string)
    requires IsWord(w) && IsWord(v) && Lower(w) == Lower(v)
    ensures w == v
  {
    forall i | 0 <= i < |w|
      ensures w[i] == v[i]
    {
      assert Lower(w)[i] == Lower(v)[i];
    }
  }

  /** Names made of words come from one list of words each, and keep it in their snake form. */
  lemma WordsInjective(words: seq<string>, others: seq<string>)
    requires AllWords(words) && AllWords(others) && words != [] && others != []
    requires PascalToSnake(Concat(words)) == PascalToSnake(Concat(others))
    ensures words == others
  {
    SnakeKeepsWords(words);
    SnakeKeepsWords(others);
    forall i | 0 <= i < |words|
      ensures words[i] == others[i]
    {
      assert LowerAll(words)[i] == LowerAll(others)[i];
      WordFromLower(words[i], others[i]);
    }
  }
}
