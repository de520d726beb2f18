/** Page cursors: the printed form `<unix nanoseconds>_<article id>` and its parser.

    Printing follows fmt.Sprintf("%d_%d"), parsing follows fmt.Sscanf with the same format on a
    64-bit platform: an optional sign, at least one decimal digit, a value inside int64, and text
    behind the second number is ignored. */
module Cursor {
  import opened Results
  import opened Timeline

  const MIN_INT64: int := -0x8000_0000_0000_0000
  const MAX_INT64: int := 0x7fff_ffff_ffff_ffff

  predicate InInt64(n: int) {
    MIN_INT64 <= n <= MAX_INT64
  }

  predicate IsDigit(c: char) {
    '0' <= c <= '9'
  }

  function DigitValue(c: char): (d: nat)
    requires IsDigit(c)
    ensures d < 10
  {
    (c - '0') as int
  }

  function DigitChar(d: nat): (c: char)
    requires d < 10
    ensures IsDigit(c) && DigitValue(c) == d
  {
    '0' + d as char
  }

  predicate DigitsIn(s: string, i: nat, j: nat) {
    i <= j <= |s| && forall k :: i <= k < j ==> IsDigit(s[k])
  }

  /** Decimal digits of n, most significant first. */
  function Digits(n: nat): string {
    if n < 10 then [DigitChar(n)] else Digits(n / 10) + [DigitChar(n % 10)]
  }

  function Print(n: int): string {
    if n < 0 then "-" + Digits(-n) else Digits(n)
  }

  /** End of the run of digits at position i. */
  function DigitRun(s: string, i: nat): (j: nat)
    requires i <= |s|
    ensures i <= j && DigitsIn(s, i, j)
    ensures j < |s| ==> !IsDigit(s[j])
    decreases |s| - i
  {
    if i == |s| || !IsDigit(s[i]) then i else DigitRun(s, i + 1)
  }

  /** The number the digits s[i..j] stand for. */
  function ValueOf(s: string, i: nat, j: nat): nat
    requires DigitsIn(s, i, j)
    decreases j
  {
    if i == j then 0 else ValueOf(s, i, j - 1) * 10 + DigitValue(s[j - 1])
  }

  /** One "%d" at position i: the number read and the position behind it. */
  function ScanInt(s: string, i: nat): (r: Result<(int, nat)>)
    requires i <= |s|
    ensures r.Ok? ==> InInt64(r.value.0) && i < r.value.1 <= |s|
  {
    var signed := i < |s| && (s[i] == '-' || s[i] == '+');
    var start := if signed then i + 1 else i;
    var end := DigitRun(s, start);
    if end == start then Err("expected integer") else
      var magnitude: int := ValueOf(s, start, end);
      var n := if signed && s[i] == '-' then -magnitude else magnitude;
      if InInt64(n) then Ok((n, end)) else Err("integer overflow")
  }

  function Encode(r: Ref): (s: string)
    ensures s != ""
  {
    Print(r.publishedAt) + "_" + Print(r.id)
  }

  function Decode(s: string): Result<Ref> {
    var nanos := ScanInt(s, 0);
    if nanos.Err? then Err(nanos.message)
    else if nanos.value.1 == |s| || s[nanos.value.1] != '_' then Err("input does not match format")
    else
      var id := ScanInt(s, nanos.value.1 + 1);
      if id.Err? then Err(id.message) else Ok(Ref(id.value.0, nanos.value.0))
  }

  /** The time comes first, both numbers are decimal, and a negative one carries its sign. */
  lemma {:induction false} PrintedExamples()
    ensures Encode(Ref(2, 10)) == "10_2" && Encode(Ref(-7, -305)) == "-305_-7"
  {
    assert Digits(10) == Digits(1) + [DigitChar(0)];
    assert Digits(30) == Digits(3) + [DigitChar(0)];
    assert Digits(305) == Digits(30) + [DigitChar(5)];
  }

  predicate Encodable(r: Ref) {
    InInt64(r.publishedAt) && InInt64(r.id)
  }

  lemma {:induction false} DigitsRoundTrip(s: string, i: nat, n: nat)
    requires i + |Digits(n)| <= |s| && s[i..i + |Digits(n)|] == Digits(n)
    ensures |Digits(n)| > 0 && DigitsIn(s, i, i + |Digits(n)|) && ValueOf(s, i, i + |Digits(n)|) == n
  {
    var d := Digits(n);
    assert forall k :: 0 <= k < |d| ==> s[i + k] == d[k];
    if n >= 10 {
      var front := Digits(n / 10);
      assert forall k :: 0 <= k < |front| ==> d[k] == front[k];
      assert s[i..i + |front|] == front;
      DigitsRoundTrip(s, i, n / 10);
    }
  }

  lemma {:induction false} DigitRunEnds(s: string, i: nat, j: nat)
    requires DigitsIn(s, i, j) && (j < |s| ==> !IsDigit(s[j]))
    ensures DigitRun(s, i) == j
    decreases j - i
  {
    if i < j {
      DigitRunEnds(s, i + 1, j);
    }
  }

  /** A sign may precede either number. */
  lemma {:induction false} SignsAreAccepted()
    ensures Decode("+1_-2") == Ok(Ref(-2, 1))
  {
    var s := "+1_-2";
    DigitRunEnds(s, 1, 2);
    DigitRunEnds(s, 4, 5);
    assert ScanInt(s, 0) == Ok((1, 2));
    assert ScanInt(s, 3) == Ok((-2, 5));
  }

  /** Text behind the second number is ignored. */
  lemma {:induction false} RestIsIgnored()
    ensures Decode("1_2x") == Ok(Ref(2, 1))
  {
    assert DigitRun("1_2x", 0) == 1 && DigitRun("1_2x", 2) == 3;
  }

  lemma {:induction false} ScanParts(s: string, i: nat, negative: bool, end: nat, magnitude: nat)
    requires i < |s| && (if negative then s[i] == '-' else IsDigit(s[i]))
    requires var start := if negative then i + 1 else i;
      start < end <= |s| && DigitsIn(s, start, end) && (end < |s| ==> !IsDigit(s[end]))
      && ValueOf(s, start, end) == magnitude
    ensures var n := if negative then -(magnitude as int) else magnitude;
      ScanInt(s, i) == if InInt64(n) then Ok((n, end)) else Err("integer overflow")
  {
    DigitRunEnds(s, if negative then i + 1 else i, end);
  }

  lemma {:induction false} SliceOfSlice(s: string, i: nat, p: string, k: nat)
    requires p != [] && i + |p| <= |s| && s[i..i + |p|] == p && k <= |p|
    ensures s[i] == p[0] && s[i + k..i + |p|] == p[k..]
  {
    assert s[i..i + |p|][0] == s[i] && s[i..i + |p|][k..] == s[i + k..i + |p|];
  }

  /** A printed number inside a text: its sign, and the digits of its magnitude. */
  lemma {:induction false} PrintedAt(s: string, i: nat, n: int, magnitude: nat, start: nat, end: nat)
    requires end == i + |Print(n)| <= |s| && s[i..end] == Print(n)
    requires magnitude == (if n < 0 then -n else n) && start == (if n < 0 then i + 1 else i)
    ensures start < end && DigitsIn(s, start, end) && ValueOf(s, start, end) == magnitude
    ensures if n < 0 then s[i] == '-' else IsDigit(s[i])
  {
    var p, d := Print(n), Digits(magnitude);
    assert p == (if n < 0 then ['-'] else []) + d;
    DigitsRoundTrip(d, 0, magnitude);
    SliceOfSlice(s, i, p, start - i);
    assert p[start - i..] == d;
    DigitsRoundTrip(s, start, magnitude);
  }

  lemma {:induction false} ScanPrinted(s: string, i: nat, n: int)
    requires i + |Print(n)| <= |s| && s[i..i + |Print(n)|] == Print(n)
    requires i + |Print(n)| < |s| ==> !IsDigit(s[i + |Print(n)|])
    ensures ScanInt(s, i) == if InInt64(n) then Ok((n, i + |Print(n)|)) else Err("integer overflow")
  {
    var magnitude: nat, end := if n < 0 then -n else n, i + |Print(n)|;
    PrintedAt(s, i, n, magnitude, if n < 0 then i + 1 else i, end);
    ScanParts(s, i, n < 0, end, magnitude);
  }

  lemma {:induction false} PrintedParts(a: string, b: string)
    ensures var s := a + "_" + b;
      s[0..|a|] == a && s[|a|] == '_' && s[|a| + 1..|s|] == b && |s| == |a| + 1 + |b|
  {
  }

  /** Decoding a printed cursor returns the same timestamp and id, negative values included. */
  lemma {:induction false} CursorRoundTrip(r: Ref)
    requires Encodable(r)
    ensures Decode(Encode(r)) == Ok(r)
  {
    var a, b := Print(r.publishedAt), Print(r.id);
    var s := a + "_" + b;
    PrintedParts(a, b);
    assert ScanInt(s, 0) == Ok((r.publishedAt, |a|)) by {
      ScanPrinted(s, 0, r.publishedAt);
    }
    assert ScanInt(s, |a| + 1) == Ok((r.id, |s|)) by {
      ScanPrinted(s, |a| + 1, r.id);
    }
  }

  /** A printed position is read back exactly if both numbers fit in 64 bits; otherwise it is refused. */
  lemma {:induction false} RoundTripExactly(r: Ref)
    ensures Decode(Encode(r)) == Ok(r)
       <==> && -9_223_372_036_854_775_808 <= r.publishedAt <= 9_223_372_036_854_775_807
            && -9_223_372_036_854_775_808 <= r.id <= 9_223_372_036_854_775_807
    ensures Decode(Encode(r)) != Ok(r) ==> Decode(Encode(r)).Err?
  {
    var a, b := Print(r.publishedAt), Print(r.id);
    var s := a + "_" + b;
    PrintedParts(a, b);
    ScanPrinted(s, 0, r.publishedAt);
    ScanPrinted(s, |a| + 1, r.id);
  }

  lemma {:induction false} DistinctArticlesDistinctCursors(a: Ref, b: Ref)
    requires Encodable(a) && Encodable(b) && a != b
    ensures Encode(a) != Encode(b)
  {
    CursorRoundTrip(a);
    CursorRoundTrip(b);
  }

  /** A decoded cursor is always inside the 64-bit range, whatever text a client sends, and
      printing it again gives a cursor for the same position. */
  lemma {:induction false} DecodedCursorIsCanonical(s: string)
    requires Decode(s).Ok?
    ensures Encodable(Decode(s).value)
    ensures Decode(Encode(Decode(s).value)) == Decode(s)
  {
    CursorRoundTrip(Decode(s).value);
  }

  lemma {:induction false} ScannedShape(s: string, i: nat)
    requires i <= |s| && ScanInt(s, i).Ok?
    ensures IsDigit(s[ScanInt(s, i).value.1 - 1])
    ensures IsDigit(s[i]) || (i + 1 < |s| && s[i] in "+-" && IsDigit(s[i + 1]))
  {
  }

  /** Text decodes only if it holds two digit runs separated by an underscore: the malformed
      cursors "", "123", "_", "123_", "_456" and "abc_def" are all refused. */
  lemma {:induction false} DecodableShape(s: string) returns (u: nat)
    requires Decode(s).Ok?
    ensures 0 < u < |s| - 1 && s[u] == '_' && IsDigit(s[u - 1])
    ensures IsDigit(s[u + 1]) || (u + 2 < |s| && s[u + 1] in "+-" && IsDigit(s[u + 2]))
  {
    u := ScanInt(s, 0).value.1;
    ScannedShape(s, 0);
    ScannedShape(s, u + 1);
  }
}
