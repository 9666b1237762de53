/** Durations such as `10m` and the rotation period that `TimeFromNow` picks for them. */
module Durations {
  import opened Wrappers
  import opened Text

  // ---------------------------------------------------------------- tokenize

  function DigitRun(s: string): (n: nat)
    ensures n <= |s| && (forall i :: 0 <= i < n ==> IsDigit(s[i])) && (n < |s| ==> !IsDigit(s[n]))
  {
    if s == "" || !IsDigit(s[0]) then 0 else 1 + DigitRun(s[1..])
  }

  function LetterRun(s: string): (n: nat)
    ensures n <= |s| && (forall i :: 0 <= i < n ==> IsLetter(s[i])) && (n < |s| ==> !IsLetter(s[n]))
  {
    if s == "" || !IsLetter(s[0]) then 0 else 1 + LetterRun(s[1..])
  }

  /** The leftmost match of one or more digits followed by one or more letters, anywhere in the text. */
  function FindToken(s: string): Option<(string, string)> {
    if s == "" then None
    else
      var d := DigitRun(s);
      if 0 < d < |s| && IsLetter(s[d]) then Some((s[..d], s[d..d + LetterRun(s[d..])]))
      else FindToken(s[1..])
  }

  predicate PairAt(s: string, j: nat) { j + 1 < |s| && IsDigit(s[j]) && IsLetter(s[j + 1]) }

  /** `d` and `l` are whole runs around the first place in `s` where a digit meets a letter. */
  predicate TokenIs(s: string, pre: string, d: string, l: string, post: string) {
    && s == pre + d + l + post
    && d != "" && AllDigits(d) && l != "" && AllLetters(l)
    && (pre != "" ==> !IsDigit(pre[|pre| - 1]))
    && (post != "" ==> !IsLetter(post[0]))
    && forall j: nat :: j < |pre| ==> !PairAt(s, j)
  }

  lemma RunIs(s: string, d: string, rest: string)
    requires s == d + rest && AllDigits(d) && rest != "" && !IsDigit(rest[0])
    ensures DigitRun(s) == |d|
  {
    assert s[|d|] == rest[0];
    assert forall i :: 0 <= i < |d| ==> s[i] == d[i];
  }

  lemma LettersIs(s: string, l: string, post: string)
    requires s == l + post && AllLetters(l) && (post != "" ==> !IsLetter(post[0]))
    ensures LetterRun(s) == |l|
  {
    assert forall i :: 0 <= i < |l| ==> s[i] == l[i];
    assert post != "" ==> s[|l|] == post[0];
  }

  /** The first digit-letter meeting, with its whole runs, is what is found. */
  lemma {:induction false} FindTokenIs(s: string, pre: string, d: string, l: string, post: string)
    requires TokenIs(s, pre, d, l, post)
    ensures FindToken(s) == Some((d, l))
    decreases |pre|
  {
    if pre == "" {
      assert s == d + (l + post);
      RunIs(s, d, l + post);
      assert s[|d|..] == l + post;
      LettersIs(l + post, l, post);
    } else {
      var k := DigitRun(s);
      assert s[|pre| - 1] == pre[|pre| - 1];
      assert 0 < k < |s| && IsLetter(s[k]) ==> k <= |pre| && PairAt(s, k - 1);
      assert s[1..] == pre[1..] + d + l + post;
      forall j: nat | j < |pre| - 1
        ensures !PairAt(s[1..], j)
      {
        assert !PairAt(s, j + 1);
      }
      FindTokenIs(s[1..], pre[1..], d, l, post);
    }
  }

  /** Without any digit next to a letter nothing is found; otherwise something is. */
  lemma {:induction false} NothingFound(s: string)
    ensures FindToken(s) == None <==> forall j: nat :: !PairAt(s, j)
  {
    if s != "" {
      NothingFound(s[1..]);
      var d := DigitRun(s);
      if 0 < d < |s| && IsLetter(s[d]) {
        assert PairAt(s, d - 1);
      } else {
        assert PairAt(s, 0) ==> d == 1;
        assert forall j: nat :: j > 0 && PairAt(s, j) ==> PairAt(s[1..], j - 1);
        assert forall j: nat :: PairAt(s[1..], j) <==> PairAt(s, j + 1);
      }
    }
  }

  /** What is found stands in the text. */
  lemma {:induction false} FoundIs(s: string)
    requires FindToken(s).Some?
    ensures exists pre, post :: TokenIs(s, pre, FindToken(s).value.0, FindToken(s).value.1, post)
  {
    var k := DigitRun(s);
    if 0 < k < |s| && IsLetter(s[k]) {
      var n := LetterRun(s[k..]);
      RunSplits(s[k..]);
      Slices(s, k, n);
      TokenAtStart(s[..k], s[k..k + n], s[k + n..]);
    } else {
      FoundIs(s[1..]);
      var (d, l) := FindToken(s[1..]).value;
      var pre, post :| TokenIs(s[1..], pre, d, l, post);
      FoundLater(s, pre, d, l, post);
      assert TokenIs(s, [s[0]] + pre, d, l, post);
    }
  }

  /** Whole runs at the very start are the token. */
  lemma TokenAtStart(d: string, l: string, post: string)
    requires d != "" && AllDigits(d) && l != "" && AllLetters(l) && (post != "" ==> !IsLetter(post[0]))
    ensures TokenIs(d + l + post, "", d, l, post)
  {
    assert d + l + post == "" + d + l + post;
  }

  lemma RunSplits(rest: string)
    requires rest != "" && IsLetter(rest[0])
    ensures var n := LetterRun(rest);
            0 < n <= |rest| && AllLetters(rest[..n]) && (rest[n..] != "" ==> !IsLetter(rest[n..][0]))
  {}

  lemma Slices(s: string, k: nat, n: nat)
    requires k + n <= |s|
    ensures s == s[..k] + s[k..k + n] + s[k + n..]
    ensures s[k..k + n] == s[k..][..n] && s[k + n..] == s[k..][n..]
  {}

  lemma FoundLater(s: string, pre: string, d: string, l: string, post: string)
    requires s != "" && !(0 < DigitRun(s) < |s| && IsLetter(s[DigitRun(s)]))
    ensures TokenIs(s[1..], pre, d, l, post) ==> TokenIs(s, [s[0]] + pre, d, l, post)
  {
    if TokenIs(s[1..], pre, d, l, post) {
      Prepended(s, pre, d, l, post);
      NoPairBefore(s, |pre|);
    }
  }

  lemma Prepended(s: string, pre: string, d: string, l: string, post: string)
    requires s != "" && !(0 < DigitRun(s) < |s| && IsLetter(s[DigitRun(s)]))
    ensures TokenIs(s[1..], pre, d, l, post) ==>
              s == [s[0]] + pre + d + l + post && !IsDigit(([s[0]] + pre)[|pre|])
  {
    if TokenIs(s[1..], pre, d, l, post) {
      Regrouped(s, pre, d, l, post);
    }
    if TokenIs(s[1..], pre, d, l, post) && pre == "" && IsDigit(s[0]) {
      RunMeets([s[0]] + d, l + post);
      assert false;
    }
  }

  lemma Regrouped(s: string, pre: string, d: string, l: string, post: string)
    requires s != "" && s[1..] == pre + d + l + post
    ensures s == [s[0]] + pre + d + l + post
    ensures pre == "" ==> s == ([s[0]] + d) + (l + post)
  {
    assert s == [s[0]] + s[1..];
  }

  lemma RunMeets(run: string, rest: string)
    requires run != "" && AllDigits(run) && rest != "" && IsLetter(rest[0])
    ensures var s := run + rest; 0 < DigitRun(s) < |s| && IsLetter(s[DigitRun(s)])
  {
    RunIs(run + rest, run, rest);
    assert (run + rest)[|run|] == rest[0];
  }

  lemma NoPairBefore(s: string, n: nat)
    requires s != "" && !(0 < DigitRun(s) < |s| && IsLetter(s[DigitRun(s)]))
    requires forall j: nat :: j < n ==> !PairAt(s[1..], j)
    ensures forall j: nat :: j < n + 1 ==> !PairAt(s, j)
  {
    forall j: nat | j < n + 1
      ensures !PairAt(s, j)
    {
      if j == 0 {
        assert PairAt(s, 0) ==> DigitRun(s) == 1;
      } else {
        assert !PairAt(s[1..], j - 1);
      }
    }
  }

  // ---------------------------------------------------------------- future_datetime

  const MINUTE := 60
  const HOUR := 3600
  const DAY := 86400

  const ALLOWED: set<string> :=
    {"m", "min", "minutes", "h", "hours", "d", "days", "w", "weeks", "M", "months", "y", "years"}

  /** Seconds of one unit; a month is 30 days and a year is 52 weeks here. */
  function UnitSeconds(literal: string): nat {
    if literal in {"m", "min", "minutes"} then MINUTE
    else if literal in {"h", "hours"} then HOUR
    else if literal in {"d", "days"} then DAY
    else if literal in {"w", "weeks"} then 7 * DAY
    else if literal in {"M", "months"} then 30 * DAY
    else 52 * 7 * DAY
  }

  datatype DurationError = NoToken | NotAllowed

  /** `future_datetime`, as a number of seconds. */
  function FutureSeconds(delta: string): Result<nat, DurationError> {
    match FindToken(delta)
    case None => Err(NoToken)
    case Some((digits, literal)) =>
      if literal !in ALLOWED || !AllDigits(digits) then Err(NotAllowed)
      else Ok(ParseNat(digits) * UnitSeconds(literal))
  }

  lemma AllowedAreLetters(literal: string)
    ensures literal in ALLOWED ==> literal != "" && AllLetters(literal)
  {}

  /** What a text means, by the token in it: leading zeros and surrounding text do not matter. */
  lemma TextMeans(delta: string, pre: string, d: string, l: string, post: string)
    requires TokenIs(delta, pre, d, l, post)
    ensures FutureSeconds(delta) == if l in ALLOWED then Ok(ParseNat(d) * UnitSeconds(l)) else Err(NotAllowed)
  {
    FindTokenIs(delta, pre, d, l, post);
  }

  ghost predicate Means(delta: string, total: nat) {
    exists pre, d, l, post :: TokenIs(delta, pre, d, l, post) && l in ALLOWED && total == ParseNat(d) * UnitSeconds(l)
  }

  /** Exactly the texts with an allowed token are accepted, and those without a token rejected as such. */
  lemma AcceptedExactly(delta: string, total: nat)
    ensures FutureSeconds(delta) == Ok(total) <==> Means(delta, total)
    ensures FutureSeconds(delta) == Err(NoToken) <==> forall j: nat :: !PairAt(delta, j)
  {
    NothingFound(delta);
    if FindToken(delta).Some? {
      FoundIs(delta);
      var (d, l) := FindToken(delta).value;
      var pre, post :| TokenIs(delta, pre, d, l, post);
      TextMeans(delta, pre, d, l, post);
    }
    if Means(delta, total) {
      var pre, d, l, post :| TokenIs(delta, pre, d, l, post) && l in ALLOWED && total == ParseNat(d) * UnitSeconds(l);
      TextMeans(delta, pre, d, l, post);
    }
  }

  /** A printed number and an allowed unit mean exactly that many units. */
  lemma WrittenMeans(n: nat, literal: string)
    requires literal in ALLOWED
    ensures FutureSeconds(Decimal(n) + literal) == Ok(n * UnitSeconds(literal))
  {
    AllowedAreLetters(literal);
    DecimalDigits(n);
    ParseDecimal(n);
    assert Decimal(n) + literal + "" == Decimal(n) + literal;
    TokenAtStart(Decimal(n), literal, "");
    TextMeans(Decimal(n) + literal, "", Decimal(n), literal, "");
  }

  /** The seconds of a unit by its texts; other texts are no units. */
  function TableSeconds(literal: string): Option<nat> {
    if literal == "m" || literal == "min" || literal == "minutes" then Some(60)
    else if literal == "h" || literal == "hours" then Some(3600)
    else if literal == "d" || literal == "days" then Some(86400)
    else if literal == "w" || literal == "weeks" then Some(604800)
    else if literal == "M" || literal == "months" then Some(2592000)
    else if literal == "y" || literal == "years" then Some(31449600)
    else None
  }

  lemma UnitIs(literal: string)
    ensures literal in ALLOWED <==> TableSeconds(literal).Some?
    ensures literal in ALLOWED ==> UnitSeconds(literal) == TableSeconds(literal).value
  {}

  /** Digits and letters mean that many times the seconds of the unit, and nothing if it is none. */
  lemma UnitTable(delta: string, pre: string, d: string, l: string, post: string)
    requires TokenIs(delta, pre, d, l, post)
    ensures FutureSeconds(delta)
            == match TableSeconds(l) case None => Err(NotAllowed) case Some(seconds) => Ok(ParseNat(d) * seconds)
  {
    TextMeans(delta, pre, d, l, post);
    UnitIs(l);
  }

  // ---------------------------------------------------------------- rotating_rep

  datatype RotationUnit = Years | Months | Days | Hours | Minutes | Seconds

  /** The field of `TimeFromNow` for a unit: days and the seconds left over are split first. */
  function Field(total: nat, u: RotationUnit): nat {
    var days, seconds := total / DAY, total % DAY;
    match u
    case Years => days / 365
    case Months => days / 30
    case Days => days
    case Hours => seconds / HOUR
    case Minutes => seconds / MINUTE
    case Seconds => seconds
  }

  /** `rotating_rep`: the first of the listed units whose field is not zero, else the seconds. */
  function RotatingRep(total: nat): (RotationUnit, nat) {
    if Field(total, Years) != 0 then (Years, Field(total, Years))
    else if Field(total, Months) != 0 then (Months, Field(total, Months))
    else if Field(total, Days) != 0 then (Days, Field(total, Days))
    else if Field(total, Hours) != 0 then (Hours, Field(total, Hours))
    else if Field(total, Minutes) != 0 then (Minutes, Field(total, Minutes))
    else (Seconds, Field(total, Seconds))
  }

  /** Seconds of one rotation unit. */
  function RotationSeconds(u: RotationUnit): nat {
    match u
    case Years => 365 * DAY
    case Months => 30 * DAY
    case Days => DAY
    case Hours => HOUR
    case Minutes => MINUTE
    case Seconds => 1
  }

  function Period(total: nat): nat { RotatingRep(total).1 * RotationSeconds(RotatingRep(total).0) }

  /**
   The chosen period never exceeds the duration and misses it by less than one unit, so it is
   more than half of it.
   */
  lemma RotationBound(total: nat)
    ensures Period(total) <= total < Period(total) + RotationSeconds(RotatingRep(total).0)
    ensures total > 0 ==> total < 2 * Period(total)
    ensures Period(total) == total <==> total % RotationSeconds(RotatingRep(total).0) == 0
  {
    var (u, v) := RotatingRep(total);
    assert v == total / RotationSeconds(u) by {
      WholeDays(total);
    }
    assert total == v * RotationSeconds(u) + total % RotationSeconds(u);
    assert total > 0 ==> v >= 1;
  }

  /** Dividing by a day and then by a number of days is dividing by all those days. */
  lemma WholeDays(total: nat)
    ensures total / DAY / 365 == total / (365 * DAY)
    ensures total / DAY / 30 == total / (30 * DAY)
  {}

  /** The chosen unit is the largest listed one that fits, and its value the number of times it fits. */
  lemma RotationWritten(total: nat)
    ensures RotatingRep(total)
            == if total >= 31536000 then (Years, total / 31536000)
               else if total >= 2592000 then (Months, total / 2592000)
               else if total >= 86400 then (Days, total / 86400)
               else if total >= 3600 then (Hours, total / 3600)
               else if total >= 60 then (Minutes, total / 60)
               else (Seconds, total)
  {
    WholeDays(total);
  }

  /**
   For every accepted text, the seconds fallback is reached only for zero, and otherwise the
   period P satisfies P <= duration < 2P.
   */
  lemma RotationOfText(delta: string)
    requires FutureSeconds(delta).Ok?
    ensures var total := FutureSeconds(delta).value;
            && (RotatingRep(total).0 == Seconds <==> total == 0)
            && (total > 0 ==> Period(total) <= total < 2 * Period(total))
  {
    RotationBound(FutureSeconds(delta).value);
  }

  /** A year being 364 days, one year rotates by 12 months, and more years by the whole 365-day years in them. */
  lemma YearsRotation(n: nat, literal: string)
    requires literal in {"y", "years"}
    ensures FutureSeconds(Decimal(n) + literal).Ok?
    ensures RotatingRep(FutureSeconds(Decimal(n) + literal).value)
            == if n == 0 then (Seconds, 0) else if n == 1 then (Months, 12) else (Years, 364 * n / 365)
  {
    assert literal in ALLOWED && UnitSeconds(literal) == 364 * DAY;
    WrittenMeans(n, literal);
    YearDays(n);
  }

  lemma YearDays(n: nat)
    ensures RotatingRep(n * (364 * DAY))
            == if n == 0 then (Seconds, 0) else if n == 1 then (Months, 12) else (Years, 364 * n / 365)
  {
    var total := n * (364 * DAY);
    assert total / DAY == 364 * n && total % DAY == 0;
  }
}
