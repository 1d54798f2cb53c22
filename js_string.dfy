/**
 * The three JavaScript string built-ins the timetable logic relies on:
 * String.prototype.trim, String.prototype.split with a non-empty separator,
 * and Number applied to a piece of an interval text, restricted to the
 * inputs a timetable text produces (see README, "Left out").
 */
module JsString {
  import opened Wrappers

  // ---------------------------------------------------------------- trim

  /** ECMAScript WhiteSpace and LineTerminator code points: exactly what `trim` removes. */
  predicate IsWhitespace(c: char) {
    || c == '\t' || c == '\U{000B}' || c == '\U{000C}' || c == ' '
    || c == '\U{00A0}' || c == '\U{FEFF}' || c == '\U{1680}'
    || ('\U{2000}' <= c <= '\U{200A}')
    || c == '\U{202F}' || c == '\U{205F}' || c == '\U{3000}'
    || c == '\n' || c == '\r' || c == '\U{2028}' || c == '\U{2029}'
  }

  predicate AllWhitespace(s: string) {
    forall i :: 0 <= i < |s| ==> IsWhitespace(s[i])
  }

  // The facts about the three trim functions are lemmas of their own, so
  // that a proof mentioning many trimmed cells does not carry them along.

  /** Drops leading whitespace. */
  function TrimStart(s: string): string {
    if s != [] && IsWhitespace(s[0]) then TrimStart(s[1..]) else s
  }

  /** Drops trailing whitespace. */
  function TrimEnd(s: string): string {
    if s != [] && IsWhitespace(s[|s| - 1]) then TrimEnd(s[..|s| - 1]) else s
  }

  /** String.prototype.trim. */
  function Trim(s: string): string {
    TrimEnd(TrimStart(s))
  }

  /** TrimStart keeps a suffix of `s`, drops only whitespace, and stops at a non-whitespace character. */
  lemma {:induction false} TrimStartFacts(s: string)
    ensures |TrimStart(s)| <= |s| && TrimStart(s) == s[|s| - |TrimStart(s)|..]
    ensures AllWhitespace(s[..|s| - |TrimStart(s)|])
    ensures TrimStart(s) == [] || !IsWhitespace(TrimStart(s)[0])
  {
    if s != [] && IsWhitespace(s[0]) {
      TrimStartFacts(s[1..]);
      var k := |s| - |TrimStart(s)|;
      assert s[..k] == [s[0]] + s[1..][..k - 1];
    }
  }

  /** TrimEnd keeps a prefix of `s`, drops only whitespace, and stops at a non-whitespace character. */
  lemma {:induction false} TrimEndFacts(s: string)
    ensures |TrimEnd(s)| <= |s| && TrimEnd(s) == s[..|TrimEnd(s)|]
    ensures AllWhitespace(s[|TrimEnd(s)|..])
    ensures TrimEnd(s) == [] || !IsWhitespace(TrimEnd(s)[|TrimEnd(s)| - 1])
  {
    if s != [] && IsWhitespace(s[|s| - 1]) {
      TrimEndFacts(s[..|s| - 1]);
      var k := |TrimEnd(s)|;
      assert s[k..] == s[..|s| - 1][k..] + [s[|s| - 1]];
    }
  }

  /** A trimmed text is empty or starts and ends with a non-whitespace character. */
  lemma TrimEnds(s: string)
    ensures Trim(s) == [] || (!IsWhitespace(Trim(s)[0]) && !IsWhitespace(Trim(s)[|Trim(s)| - 1]))
  {
    var t := TrimStart(s);
    TrimStartFacts(s);
    TrimEndFacts(t);
    if Trim(s) != [] {
      assert Trim(s)[0] == t[0];
    }
  }

  /** `trim` cuts `s` into whitespace, the result, whitespace; and it is blank exactly for all-whitespace input. */
  lemma TrimInfix(s: string)
    ensures exists i :: (0 <= i && i + |Trim(s)| <= |s| && s[i..i + |Trim(s)|] == Trim(s)
                         && AllWhitespace(s[..i]) && AllWhitespace(s[i + |Trim(s)|..]))
    ensures Trim(s) == [] <==> AllWhitespace(s)
  {
    var t := TrimStart(s);
    var r := TrimEnd(t);
    var i := |s| - |t|;
    TrimStartFacts(s);
    TrimEndFacts(t);
    assert s[i..i + |r|] == t[..|r|] == r;
    assert s[i + |r|..] == t[|r|..];
    if r == [] {
      assert t == [];
      assert s[..i] == s;
    }
  }

  /** Trimming a trimmed string changes nothing. */
  lemma TrimIdempotent(s: string)
    ensures Trim(Trim(s)) == Trim(s)
  {
    var r := Trim(s);
    TrimEnds(s);
    if r != [] {
      assert TrimStart(r) == r;
      assert TrimEnd(r) == r;
    }
  }

  // ---------------------------------------------------------------- split

  predicate OccursAt(s: string, sep: string, k: int) {
    0 <= k && k + |sep| <= |s| && s[k..k + |sep|] == sep
  }

  predicate Free(s: string, sep: string) {
    forall k :: 0 <= k <= |s| ==> !OccursAt(s, sep, k)
  }

  /** String.prototype.indexOf(sep, from), None for -1. */
  function IndexOf(s: string, sep: string, from: nat): (r: Option<nat>)
    decreases |s| - from
    ensures r.Some? ==> from <= r.value && r.value + |sep| <= |s|
  {
    if from + |sep| > |s| then None
    else if s[from..from + |sep|] == sep then Some(from)
    else IndexOf(s, sep, from + 1)
  }

  /** No occurrence lies between `from` and what `indexOf` returns, and None means there is none at all. */
  lemma {:induction false} IndexOfLeftmost(s: string, sep: string, from: nat)
    decreases |s| - from
    ensures IndexOf(s, sep, from).Some? ==>
      forall k :: from <= k < IndexOf(s, sep, from).value ==> !OccursAt(s, sep, k)
    ensures IndexOf(s, sep, from).None? ==> forall k :: from <= k ==> !OccursAt(s, sep, k)
  {
    if from + |sep| <= |s| && s[from..from + |sep|] != sep {
      IndexOfLeftmost(s, sep, from + 1);
    }
  }

  /** What `indexOf` returns is an occurrence. */
  lemma {:induction false} IndexOfFound(s: string, sep: string, from: nat)
    decreases |s| - from
    ensures IndexOf(s, sep, from).Some? ==> OccursAt(s, sep, IndexOf(s, sep, from).value)
  {
    if from + |sep| <= |s| && s[from..from + |sep|] != sep {
      IndexOfFound(s, sep, from + 1);
    }
  }

  /** Array.prototype.join. */
  function Join(pieces: seq<string>, sep: string): string {
    if pieces == [] then ""
    else if |pieces| == 1 then pieces[0]
    else pieces[0] + sep + Join(pieces[1..], sep)
  }

  /**
   * String.prototype.split with a non-empty separator: the pieces between
   * the leftmost non-overlapping occurrences.
   */
  function Split(s: string, sep: string): (r: seq<string>)
    requires |sep| > 0
    decreases |s|
    ensures |r| >= 1
  {
    match IndexOf(s, sep, 0)
    case None => [s]
    case Some(i) => [s[..i]] + Split(s[i + |sep|..], sep)
  }

  /** A prefix that ends before the first occurrence holds no occurrence. */
  lemma FreePrefix(s: string, sep: string, i: nat)
    requires |sep| > 0 && i <= |s|
    requires forall k :: 0 <= k < i ==> !OccursAt(s, sep, k)
    ensures Free(s[..i], sep)
  {
    forall k | 0 <= k <= i ensures !OccursAt(s[..i], sep, k) {
      if k + |sep| <= i {
        assert s[..i][k..k + |sep|] == s[k..k + |sep|];
        assert !OccursAt(s, sep, k);
      }
    }
  }

  lemma JoinCons(first: string, rest: seq<string>, sep: string)
    requires |rest| >= 1
    ensures Join([first] + rest, sep) == first + sep + Join(rest, sep)
  {
    assert ([first] + rest)[1..] == rest;
  }

  /** One step of `split`: the piece before the first occurrence, then the split of what follows it. */
  lemma SplitStep(s: string, sep: string, i: nat)
    requires |sep| > 0 && IndexOf(s, sep, 0) == Some(i)
    ensures Split(s, sep) == [s[..i]] + Split(s[i + |sep|..], sep)
  {
  }

  /** Joining the pieces back with the separator gives the input. */
  lemma {:induction false} SplitJoin(s: string, sep: string)
    requires |sep| > 0
    decreases |s|
    ensures Join(Split(s, sep), sep) == s
  {
    var found := IndexOf(s, sep, 0);
    if found.Some? {
      var i := found.value;
      var rest := s[i + |sep|..];
      SplitJoin(rest, sep);
      IndexOfFound(s, sep, 0);
      SplitStep(s, sep, i);
      JoinCons(s[..i], Split(rest, sep), sep);
      assert s == s[..i] + sep + rest;
    } else {
      assert Split(s, sep) == [s];
    }
  }

  /** No piece of a split contains the separator. */
  lemma {:induction false} SplitPiecesFree(s: string, sep: string)
    requires |sep| > 0
    decreases |s|
    ensures forall j :: 0 <= j < |Split(s, sep)| ==> Free(Split(s, sep)[j], sep)
  {
    IndexOfLeftmost(s, sep, 0);
    match IndexOf(s, sep, 0)
    case None =>
      assert Free(s, sep);
    case Some(i) =>
      var rest := s[i + |sep|..];
      SplitPiecesFree(rest, sep);
      FreePrefix(s, sep, i);
      var pieces := Split(s, sep);
      assert pieces[1..] == Split(rest, sep);
      forall j | 0 <= j < |pieces| ensures Free(pieces[j], sep) {
        if j > 0 {
          assert pieces[j] == Split(rest, sep)[j - 1];
        }
      }
  }

  /** Splitting at a separator whose first character `a` does not contain yields `a` first. */
  lemma {:induction false} SplitAtFirst(a: string, sep: string, b: string)
    requires |sep| > 0
    requires sep[0] !in a
    ensures Split(a + sep + b, sep) == [a] + Split(b, sep)
  {
    var s := a + sep + b;
    assert OccursAt(s, sep, |a|) by { assert s[|a|..|a| + |sep|] == sep; }
    IndexOfLeftmost(s, sep, 0);
    IndexOfFound(s, sep, 0);
    var r := IndexOf(s, sep, 0);
    assert r.Some?;
    if r.value < |a| {
      assert false;
    }
    assert r.value == |a|;
    assert s[..|a|] == a;
    assert s[|a| + |sep|..] == b;
  }

  /** A text that does not contain the separator's first character is one piece. */
  lemma {:induction false} SplitWhole(s: string, sep: string)
    requires |sep| > 0
    requires sep[0] !in s
    ensures Split(s, sep) == [s]
  {
    IndexOfFound(s, sep, 0);
    var r := IndexOf(s, sep, 0);
    if r.Some? {
      assert false;
    }
  }

  // ---------------------------------------------------------------- Number

  predicate IsDigit(c: char) {
    '0' <= c <= '9'
  }

  predicate AllDigits(s: string) {
    forall i :: 0 <= i < |s| ==> IsDigit(s[i])
  }

  function DigitsValue(s: string): nat
    requires AllDigits(s)
  {
    if s == [] then 0
    else DigitsValue(s[..|s| - 1]) * 10 + ((s[|s| - 1] as int) - ('0' as int))
  }

  /**
   * Number(piece), restricted: the empty text is 0, a text of ASCII digits
   * is its decimal value, anything else is NaN (None).
   */
  function JsNumber(s: string): Option<nat> {
    if AllDigits(s) then Some(DigitsValue(s)) else None
  }

  function DigitChar(d: nat): (c: char)
    requires d < 10
    ensures IsDigit(c)
  {
    (d + '0' as int) as char
  }

  /** The shortest decimal text of `n`, as written in a timetable ("8", "13"). */
  function Decimal(n: nat): (r: string)
    ensures r != [] && AllDigits(r)
  {
    if n < 10 then [DigitChar(n)] else Decimal(n / 10) + [DigitChar(n % 10)]
  }

  /** The two-digit text of a minute count ("00", "30"). */
  function TwoDigits(m: nat): (r: string)
    requires m < 100
    ensures |r| == 2 && AllDigits(r)
  {
    [DigitChar(m / 10), DigitChar(m % 10)]
  }

  /** Number reads back what Decimal writes. */
  lemma {:induction false} NumberOfDecimal(n: nat)
    ensures JsNumber(Decimal(n)) == Some(n)
  {
    var s := Decimal(n);
    if n < 10 {
      assert s[..|s| - 1] == [];
    } else {
      NumberOfDecimal(n / 10);
      assert s[..|s| - 1] == Decimal(n / 10);
      assert DigitsValue(s) == DigitsValue(Decimal(n / 10)) * 10 + n % 10;
    }
  }

  /** Number reads back what TwoDigits writes, leading zero included. */
  lemma NumberOfTwoDigits(m: nat)
    requires m < 100
    ensures JsNumber(TwoDigits(m)) == Some(m)
  {
    var s := TwoDigits(m);
    assert s[..1][..0] == [];
    assert s[..|s| - 1] == [DigitChar(m / 10)];
    assert DigitsValue(s[..1]) == m / 10;
    assert DigitsValue(s) == (m / 10) * 10 + m % 10;
  }

  /** Any text with a non-digit is NaN, whatever else it holds. */
  lemma NumberNaN(s: string, i: nat)
    requires i < |s| && !IsDigit(s[i])
    ensures JsNumber(s) == None
  {
  }
}
