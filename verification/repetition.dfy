/** The counted-repetition parser (`regminimax`): reads the body of a
    `{m}`, `{m,}` or `{m,n}` quantifier and reports the bounds together with
    the number of pattern bytes it consumed. */
module Repetition {
  import opened Wrappers

  /** The repeat count that stands for "no upper bound". */
  const Unbounded: int := 0x7fffffff

  /** Bounds read from a `{...}` slice and how many bytes of the slice were used. */
  datatype Repeat = Repeat(minimum: int, maximum: int, consumed: nat)

  /** `{m,` at the very end of the pattern: the source then inspects the byte
      one past the end of the pattern without a bound check. */
  datatype MinimaxError = ReadPastEnd

  predicate IsDigit(c: char) {
    '0' <= c <= '9'
  }

  predicate AllDigits(ds: seq<char>) {
    forall k :: 0 <= k < |ds| ==> IsDigit(ds[k])
  }

  /** The value of one decimal digit, taken (as in the source) from its low four bits. */
  function DigitValue(c: char): (v: nat)
    requires IsDigit(c)
    ensures v == c as int - '0' as int
  {
    (c as int) % 16
  }

  /** Positional value of a digit string, most significant digit first. */
  function DecimalValue(ds: seq<char>): nat
    requires AllDigits(ds)
  {
    if |ds| == 0 then 0 else DecimalValue(ds[..|ds| - 1]) * 10 + DigitValue(ds[|ds| - 1])
  }

  /** One pass of the scanning loop. `len` is the index of the next byte to
      read, `comma` records whether a comma was seen, `sum` is the number being
      accumulated and `lo` the minimum stored when the first comma was met.
      Bytes that are neither digits, `,` nor `}` are skipped, as in the source. */
  function Scan(s: seq<char>, len: nat, comma: bool, sum: nat, lo: nat): (r: Result<Repeat, MinimaxError>)
    requires 1 <= len <= |s|
    ensures r.Success? ==> len <= r.value.consumed <= |s|
    ensures r.Success? ==> r.value.minimum >= 0 && r.value.maximum >= 0
    decreases |s| - len
  {
    if len == |s| then
      // the loop ran out of input: the minimum is whatever the first comma
      // stored (0 if none) and the maximum keeps its reset value 0
      Success(Repeat(lo, 0, len))
    else
      var ch := s[len];
      if IsDigit(ch) then
        Scan(s, len + 1, comma, sum * 10 + DigitValue(ch), lo)
      else if ch == ',' then
        if comma then
          Scan(s, len + 1, comma, sum, lo)
        else if len + 1 == |s| then
          Failure(ReadPastEnd)
        else if s[len + 1] == '}' then
          Success(Repeat(sum, Unbounded, len + 2))
        else
          Scan(s, len + 1, true, 0, sum)
      else if ch == '}' then
        if comma then Success(Repeat(lo, sum, len + 1)) else Success(Repeat(sum, sum, len + 1))
      else
        Scan(s, len + 1, comma, sum, lo)
  }

  /** `regminimax`: `s` is the rest of the pattern starting at the `{`.
      The scan starts after the `{`, and at least that byte is consumed, so
      the compiler's cursor always advances. */
  function Minimax(s: seq<char>): (r: Result<Repeat, MinimaxError>)
    requires |s| >= 1
    ensures r.Success? ==> 1 <= r.value.consumed <= |s|
    ensures r.Success? ==> r.value.minimum >= 0 && r.value.maximum >= 0
  {
    Scan(s, 1, false, 0, 0)
  }

  /** Reading a run of digits from a zero accumulator leaves their decimal value. */
  lemma {:induction false} ScanDigits(s: seq<char>, i: nat, ds: seq<char>, comma: bool, lo: nat)
    requires 1 <= i && i + |ds| <= |s|
    requires s[i..i + |ds|] == ds && AllDigits(ds)
    ensures Scan(s, i, comma, 0, lo) == Scan(s, i + |ds|, comma, DecimalValue(ds), lo)
    decreases |ds|
  {
    if |ds| > 0 {
      var front := ds[..|ds| - 1];
      assert s[i..i + |front|] == front;
      ScanDigits(s, i, front, comma, lo);
      assert s[i + |front|] == ds[|ds| - 1];
    }
  }

  /** `{n}` sets both bounds to n and consumes through the closing brace. */
  lemma MinimaxExact(ds: seq<char>, rest: seq<char>)
    requires AllDigits(ds)
    ensures Minimax("{" + ds + "}" + rest)
         == Success(Repeat(DecimalValue(ds), DecimalValue(ds), |ds| + 2))
  {
    var s := "{" + ds + "}" + rest;
    assert s[1..1 + |ds|] == ds;
    ScanDigits(s, 1, ds, false, 0);
    assert s[1 + |ds|] == '}';
  }

  /** `{m,}` sets the minimum to m and leaves the maximum unbounded. */
  lemma MinimaxAtLeast(ds: seq<char>, rest: seq<char>)
    requires AllDigits(ds)
    ensures Minimax("{" + ds + ",}" + rest)
         == Success(Repeat(DecimalValue(ds), Unbounded, |ds| + 3))
  {
    var s := "{" + ds + ",}" + rest;
    assert s[1..1 + |ds|] == ds;
    ScanDigits(s, 1, ds, false, 0);
    assert s[1 + |ds|] == ',' && s[2 + |ds|] == '}';
  }

  /** `{m,n}` with a non-empty second number sets the bounds to (m, n). */
  lemma MinimaxBetween(ds: seq<char>, es: seq<char>, rest: seq<char>)
    requires AllDigits(ds) && AllDigits(es) && |es| > 0
    ensures Minimax("{" + ds + "," + es + "}" + rest)
         == Success(Repeat(DecimalValue(ds), DecimalValue(es), |ds| + |es| + 3))
  {
    var s := "{" + ds + "," + es + "}" + rest;
    var n := |ds|;
    assert s[1..1 + n] == ds && s[1 + n] == ',';
    assert s[2 + n..2 + n + |es|] == es && s[2 + n + |es|] == '}';
    MinimaxBetweenAt(s, ds, es);
  }

  lemma MinimaxBetweenAt(s: seq<char>, ds: seq<char>, es: seq<char>)
    requires AllDigits(ds) && AllDigits(es) && |es| > 0
    requires 2 + |ds| + |es| < |s|
    requires s[1..1 + |ds|] == ds && s[1 + |ds|] == ','
    requires s[2 + |ds|..2 + |ds| + |es|] == es && s[2 + |ds| + |es|] == '}'
    ensures Minimax(s) == Success(Repeat(DecimalValue(ds), DecimalValue(es), |ds| + |es| + 3))
  {
    ScanDigits(s, 1, ds, false, 0);
    ScanSecondNumber(s, 2 + |ds|, es, DecimalValue(ds));
  }

  /** After the first comma, a non-empty run of digits closed by `}` becomes the maximum. */
  lemma ScanSecondNumber(s: seq<char>, i: nat, es: seq<char>, lo: nat)
    requires 2 <= i < |s| && s[i - 1] == ',' && AllDigits(es) && |es| > 0
    requires i + |es| < |s| && s[i..i + |es|] == es && s[i + |es|] == '}'
    ensures Scan(s, i - 1, false, lo, 0) == Success(Repeat(lo, DecimalValue(es), i + |es| + 1))
  {
    assert s[i] == es[0] && IsDigit(es[0]);
    ScanDigits(s, i, es, true, lo);
  }

  /** A comma that ends the pattern makes the parser read past the end. */
  lemma MinimaxTrailingComma(ds: seq<char>)
    requires AllDigits(ds)
    ensures Minimax("{" + ds + ",") == Failure(ReadPastEnd)
  {
    var s := "{" + ds + ",";
    assert s[1..1 + |ds|] == ds;
    ScanDigits(s, 1, ds, false, 0);
    assert s[1 + |ds|] == ',';
  }
}
