/**
 Python string operations over ASCII text: case mapping, `title`, splitting at a class of
 separators, joining, and decimal printing and parsing.  Characters outside ASCII are uncased
 and are neither digits nor letters here.
 */
module Text {

  const SLASH: set<char> := {'/'}
  const DOT: set<char> := {'.'}

  predicate IsUpper(c: char) { 'A' <= c <= 'Z' }

  predicate IsLower(c: char) { 'a' <= c <= 'z' }

  predicate IsLetter(c: char) { IsUpper(c) || IsLower(c) }

  predicate IsDigit(c: char) { '0' <= c <= '9' }

  function LowerChar(c: char): char { if IsUpper(c) then (c as int + 32) as char else c }

  function UpperChar(c: char): char { if IsLower(c) then (c as int - 32) as char else c }

  /** `str.lower`. */
  function Lower(s: string): string
  {
    seq(|s|, i requires 0 <= i < |s| => LowerChar(s[i]))
  }

  /** `str.title`: a letter is upper-cased unless it directly follows another letter. */
  function Title(s: string): string
  {
    seq(|s|, i requires 0 <= i < |s| =>
      if 0 < i && IsLetter(s[i - 1]) then LowerChar(s[i]) else UpperChar(s[i]))
  }

  /** `re.split` at the single characters of `seps`; with one separator this is `str.split`. */
  function Split(s: string, seps: set<char>): (r: seq<string>)
    ensures |r| >= 1
  {
    if s == "" then [""]
    else
      var rest := Split(s[1..], seps);
      if s[0] in seps then [""] + rest else [[s[0]] + rest[0]] + rest[1..]
  }

  /** `sep.join(parts)`. */
  function Join(parts: seq<string>, sep: string): string {
    if |parts| == 0 then ""
    else if |parts| == 1 then parts[0]
    else parts[0] + sep + Join(parts[1..], sep)
  }

  predicate FreeOf(s: string, seps: set<char>) { forall i :: 0 <= i < |s| ==> s[i] !in seps }

  predicate AllFreeOf(parts: seq<string>, seps: set<char>) {
    forall i :: 0 <= i < |parts| ==> FreeOf(parts[i], seps)
  }

  /** `s` with every character of `seps` replaced by `d`. */
  function Replace(s: string, seps: set<char>, d: char): string
  {
    seq(|s|, i requires 0 <= i < |s| => if s[i] in seps then d else s[i])
  }

  /** `s` with every character of `seps` deleted. */
  function Without(s: string, seps: set<char>): string {
    if s == "" then ""
    else if s[0] in seps then Without(s[1..], seps)
    else [s[0]] + Without(s[1..], seps)
  }

  predicate AllDigits(s: string) { forall i :: 0 <= i < |s| ==> IsDigit(s[i]) }

  predicate AllLetters(s: string) { forall i :: 0 <= i < |s| ==> IsLetter(s[i]) }

  /** `str(n)` for a natural number. */
  function Decimal(n: nat): string {
    if n < 10 then [(n + 48) as char] else Decimal(n / 10) + [(n % 10 + 48) as char]
  }

  /** `int(s)` for a string of digits. */
  function ParseNat(s: string): nat
    requires AllDigits(s)
  {
    if s == "" then 0 else 10 * ParseNat(s[..|s| - 1]) + (s[|s| - 1] as int - 48)
  }

  // ---------------------------------------------------------------- case mapping

  lemma LowerConcat(a: string, b: string)
    ensures Lower(a + b) == Lower(a) + Lower(b)
  {}

  /** Title-casing looks only at the letters, not at their case. */
  lemma TitleIgnoresCase(s: string, t: string)
    requires Lower(s) == Lower(t)
    ensures Title(s) == Title(t)
  {
    forall i | 0 <= i < |s|
      ensures Title(s)[i] == Title(t)[i]
    {
      assert Lower(s)[i] == Lower(t)[i];
      if 0 < i {
        assert Lower(s)[i - 1] == Lower(t)[i - 1];
      }
    }
  }

  lemma LowerTitle(s: string)
    ensures Lower(Title(s)) == Lower(s)
  {}

  // ---------------------------------------------------------------- splitting and joining

  lemma {:induction false} SplitPieces(s: string, seps: set<char>)
    ensures AllFreeOf(Split(s, seps), seps)
  {
    if s != "" {
      SplitPieces(s[1..], seps);
    }
  }

  /** A separator in the middle splits the string there. */
  lemma {:induction false} SplitConcat(a: string, c: char, b: string, seps: set<char>)
    requires c in seps
    ensures Split(a + [c] + b, seps) == Split(a, seps) + Split(b, seps)
  {
    var s := a + [c] + b;
    if a == "" {
      assert s[0] == c && s[1..] == b;
    } else {
      var left, right := Split(a[1..], seps), Split(b, seps);
      SplitConcat(a[1..], c, b, seps);
      assert s[0] == a[0] && s[1..] == a[1..] + [c] + b;
      assert Split(s[1..], seps) == left + right;
      if a[0] in seps {
        assert [""] + (left + right) == [""] + left + right;
      } else {
        SplitHead(left, right, a[0]);
      }
    }
  }

  /** Prepending a character to the first piece commutes with appending pieces. */
  lemma SplitHead(left: seq<string>, right: seq<string>, c: char)
    requires left != []
    ensures [[c] + (left + right)[0]] + (left + right)[1..] == ([[c] + left[0]] + left[1..]) + right
  {}

  lemma {:induction false} SplitFree(s: string, seps: set<char>)
    requires FreeOf(s, seps)
    ensures Split(s, seps) == [s]
  {
    if s != "" {
      SplitFree(s[1..], seps);
      assert [s[0]] + s[1..] == s;
    }
  }

  /** A split string is one piece exactly when it has no separator. */
  lemma {:induction false} SplitSingle(s: string, seps: set<char>)
    ensures |Split(s, seps)| == 1 <==> FreeOf(s, seps)
  {
    if s != "" {
      SplitSingle(s[1..], seps);
      var rest := Split(s[1..], seps);
      if s[0] in seps {
        assert |Split(s, seps)| == 1 + |rest|;
      } else {
        assert FreeOf(s, seps) <==> FreeOf(s[1..], seps) by {
          if FreeOf(s[1..], seps) {
            forall i | 0 <= i < |s|
              ensures s[i] !in seps
            {
              if 0 < i {
                assert s[1..][i - 1] == s[i];
              }
            }
          }
        }
      }
    }
  }

  lemma JoinCons(p: string, parts: seq<string>, sep: string)
    requires parts != []
    ensures Join([p] + parts, sep) == p + sep + Join(parts, sep)
  {}

  lemma {:induction false} JoinConcat(a: seq<string>, b: seq<string>, sep: string)
    requires a != [] && b != []
    ensures Join(a + b, sep) == Join(a, sep) + sep + Join(b, sep)
  {
    if |a| == 1 {
      JoinCons(a[0], b, sep);
      assert [a[0]] + b == a + b;
    } else {
      JoinConcat(a[1..], b, sep);
      assert a + b == [a[0]] + (a[1..] + b);
      JoinCons(a[0], a[1..] + b, sep);
    }
  }

  /** Splitting undoes joining when the pieces hold no separator. */
  lemma {:induction false} SplitJoin(parts: seq<string>, c: char)
    requires parts != [] && AllFreeOf(parts, {c})
    ensures Split(Join(parts, [c]), {c}) == parts
  {
    SplitFree(parts[0], {c});
    if |parts| > 1 {
      SplitJoin(parts[1..], c);
      SplitConcat(parts[0], c, Join(parts[1..], [c]), {c});
      assert [parts[0]] + parts[1..] == parts;
    }
  }

  /** Splitting at a class of separators and joining with `d` replaces each of them by `d`. */
  lemma {:induction false} JoinSplitReplaces(s: string, seps: set<char>, d: char)
    ensures Join(Split(s, seps), [d]) == Replace(s, seps, d)
  {
    if s != "" {
      var rest := Split(s[1..], seps);
      JoinSplitReplaces(s[1..], seps, d);
      assert Replace(s, seps, d) == [if s[0] in seps then d else s[0]] + Replace(s[1..], seps, d);
      JoinGrow(s[0], rest, [d]);
      if s[0] in seps {
        assert Join(Split(s, seps), [d]) == "" + [d] + Join(rest, [d]);
      }
    }
  }

  /** How joining reacts to the two ways `Split` extends its result. */
  lemma JoinGrow(c: char, rest: seq<string>, sep: string)
    requires rest != []
    ensures Join([""] + rest, sep) == sep + Join(rest, sep)
    ensures Join([[c] + rest[0]] + rest[1..], sep) == [c] + Join(rest, sep)
  {}

  /** Joining undoes splitting at a single separator. */
  lemma JoinSplit(s: string, c: char)
    ensures Join(Split(s, {c}), [c]) == s
  {}

  /** Splitting and joining with nothing deletes the separators. */
  lemma {:induction false} JoinSplitDeletes(s: string, seps: set<char>)
    ensures Join(Split(s, seps), "") == Without(s, seps)
  {
    if s != "" {
      var rest := Split(s[1..], seps);
      JoinSplitDeletes(s[1..], seps);
      JoinGrow(s[0], rest, "");
      assert "" + Join(rest, "") == Join(rest, "");
    }
  }

  /** Deleting separators keeps the length exactly when there is none to delete. */
  lemma {:induction false} WithoutLength(s: string, seps: set<char>)
    ensures |Without(s, seps)| <= |s|
    ensures |Without(s, seps)| == |s| <==> FreeOf(s, seps)
    ensures FreeOf(s, seps) ==> Without(s, seps) == s
  {
    if s != "" {
      WithoutLength(s[1..], seps);
      assert FreeOf(s, seps) <==> s[0] !in seps && FreeOf(s[1..], seps) by {
        assert forall i :: 1 <= i < |s| ==> s[i] == s[1..][i - 1];
      }
    }
  }

  lemma WithoutCons(c: char, s: string, seps: set<char>)
    ensures Without([c] + s, seps) == (if c in seps then "" else [c]) + Without(s, seps)
  {
    assert ([c] + s)[1..] == s;
  }

  lemma {:induction false} WithoutConcat(a: string, b: string, seps: set<char>)
    ensures Without(a + b, seps) == Without(a, seps) + Without(b, seps)
  {
    if a == "" {
      assert a + b == b;
    } else {
      WithoutConcat(a[1..], b, seps);
      WithoutCons(a[0], a[1..], seps);
      WithoutCons(a[0], a[1..] + b, seps);
      assert a == [a[0]] + a[1..] && a + b == [a[0]] + (a[1..] + b);
    }
  }

  /** What is left after deleting separators holds none. */
  lemma {:induction false} WithoutFree(s: string, seps: set<char>)
    ensures FreeOf(Without(s, seps), seps)
  {
    if s != "" {
      WithoutFree(s[1..], seps);
    }
  }

  lemma FreeConcat(a: string, b: string, seps: set<char>)
    ensures FreeOf(a + b, seps) <==> FreeOf(a, seps) && FreeOf(b, seps)
  {
    if FreeOf(a + b, seps) {
      assert forall i :: 0 <= i < |a| ==> (a + b)[i] == a[i];
      assert forall i :: 0 <= i < |b| ==> (a + b)[|a| + i] == b[i];
    }
  }

  /** A joined string is free of characters exactly when its pieces are, given a free separator. */
  lemma {:induction false} JoinFree(parts: seq<string>, sep: string, seps: set<char>)
    requires parts != [] && FreeOf(sep, seps)
    ensures FreeOf(Join(parts, sep), seps) <==> AllFreeOf(parts, seps)
  {
    if |parts| > 1 {
      JoinFree(parts[1..], sep, seps);
      FreeConcat(parts[0] + sep, Join(parts[1..], sep), seps);
      FreeConcat(parts[0], sep, seps);
      assert AllFreeOf(parts, seps) <==> FreeOf(parts[0], seps) && AllFreeOf(parts[1..], seps) by {
        assert forall i :: 1 <= i < |parts| ==> parts[i] == parts[1..][i - 1];
      }
    }
  }

  /** Joining shorter pieces with nothing gives a shorter string, unless no piece is shorter. */
  lemma {:induction false} JoinLengths(a: seq<string>, b: seq<string>)
    requires |a| == |b| && forall i :: 0 <= i < |a| ==> |b[i]| <= |a[i]|
    ensures |Join(b, "")| <= |Join(a, "")|
    ensures |Join(b, "")| == |Join(a, "")| <==> forall i :: 0 <= i < |a| ==> |b[i]| == |a[i]|
  {
    if |a| > 1 {
      JoinLengths(a[1..], b[1..]);
      assert forall i :: 1 <= i < |a| ==> a[i] == a[1..][i - 1] && b[i] == b[1..][i - 1];
    }
  }

  /** Another separator changes the length of a joined string by its own length at every joint. */
  lemma {:induction false} JoinLengthWith(a: seq<string>, b: seq<string>, sep: string)
    requires |a| == |b| && a != [] && forall i :: 0 <= i < |a| ==> |b[i]| == |a[i]|
    ensures |Join(b, sep)| == |Join(a, "-")| + (|a| - 1) * (|sep| - 1)
  {
    if |a| > 1 {
      JoinLengthWith(a[1..], b[1..], sep);
    }
  }

  /** What stands between the same two texts is determined by the whole. */
  lemma Cancel(pre: string, x: string, y: string, post: string)
    ensures pre + x + post == pre + y + post <==> x == y
  {
    if pre + x + post == pre + y + post {
      assert |x| == |y|;
      assert (pre + x + post)[|pre|..|pre| + |x|] == x && (pre + y + post)[|pre|..|pre| + |y|] == y;
    }
  }

  // ---------------------------------------------------------------- decimal numbers

  lemma {:induction false} DecimalDigits(n: nat)
    ensures Decimal(n) != "" && AllDigits(Decimal(n))
  {
    if n >= 10 {
      DecimalDigits(n / 10);
    }
  }

  /** A digit string in front counts ten times as much for every digit behind it. */
  lemma {:induction false} ParseConcat(a: string, b: string)
    requires AllDigits(a) && AllDigits(b)
    ensures AllDigits(a + b) && ParseNat(a + b) == ParseNat(a) * Pow10(|b|) + ParseNat(b)
  {
    if b == "" {
      assert a + b == a;
    } else {
      var n := |b| - 1;
      ParseConcat(a, b[..n]);
      assert (a + b)[..|a + b| - 1] == a + b[..n] && (a + b)[|a + b| - 1] == b[n];
      Tenfold(ParseNat(a), Pow10(n), ParseNat(b[..n]));
    }
  }

  lemma Tenfold(x: nat, p: nat, y: nat)
    ensures 10 * (x * p + y) == x * (10 * p) + 10 * y
  {}

  function Pow10(n: nat): nat { if n == 0 then 1 else 10 * Pow10(n - 1) }

  /** Reading a printed number gives the number back. */
  lemma {:induction false} ParseDecimal(n: nat)
    ensures AllDigits(Decimal(n)) && ParseNat(Decimal(n)) == n
  {
    DecimalDigits(n);
    if n >= 10 {
      ParseDecimal(n / 10);
      assert Decimal(n)[..|Decimal(n)| - 1] == Decimal(n / 10);
    } else {
      assert Decimal(n)[..0] == "";
    }
  }
}
