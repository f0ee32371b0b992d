/** `AmountParser.parseDecimalAmount`: decimal text to integer minor units.

    The text is trimmed, read by a `DecimalFormat` configured with ',' as the
    grouping separator and '.' as the decimal separator into an exact decimal,
    and that decimal is moved `decimalDigits` places right and truncated toward
    zero. Nothing is rounded. */
module AmountParser {
  import opened Wrappers
  import opened Digits

  const GROUPING_SEPARATOR: char := ','
  const DECIMAL_SEPARATOR: char := '.'

  /** `ParseException`, carrying the trimmed text. */
  datatype ParseError = ParseError(text: string)

  // ---------------------------------------------------------------- trimming

  /** `String.trim()` drops characters up to U+0020 at both ends. */
  predicate IsBlank(c: char) {
    c <= ' '
  }

  predicate AllBlank(s: string) {
    forall i :: 0 <= i < |s| ==> IsBlank(s[i])
  }

  function TrimStart(s: string): string {
    if |s| > 0 && IsBlank(s[0]) then TrimStart(s[1..]) else s
  }

  function TrimEnd(s: string): string {
    if |s| > 0 && IsBlank(s[|s| - 1]) then TrimEnd(s[..|s| - 1]) else s
  }

  /** `String.trim()`. */
  function Trim(s: string): string {
    TrimEnd(TrimStart(s))
  }

  /** TrimStart drops the leading blanks and nothing else. */
  lemma {:induction false} TrimStartShape(s: string)
    ensures var t := TrimStart(s);
      |t| <= |s| && t == s[|s| - |t|..] && (t == [] || !IsBlank(t[0])) && AllBlank(s[..|s| - |t|])
  {
    if |s| > 0 && IsBlank(s[0]) {
      TrimStartShape(s[1..]);
      var t := TrimStart(s[1..]);
      assert s[..|s| - |t|] == [s[0]] + s[1..][..|s| - 1 - |t|];
    }
  }

  /** TrimEnd drops the trailing blanks and nothing else. */
  lemma {:induction false} TrimEndShape(s: string)
    ensures var t := TrimEnd(s);
      |t| <= |s| && t == s[..|t|] && (t == [] || !IsBlank(t[|t| - 1])) && AllBlank(s[|t|..])
  {
    if |s| > 0 && IsBlank(s[|s| - 1]) {
      TrimEndShape(s[..|s| - 1]);
      var t := TrimEnd(s[..|s| - 1]);
      assert s[|t|..] == s[..|s| - 1][|t|..] + [s[|s| - 1]];
    }
  }

  /** The trimmed text neither starts nor ends with a blank. */
  lemma TrimShape(s: string)
    ensures Trim(s) == [] || (!IsBlank(Trim(s)[0]) && !IsBlank(Trim(s)[|Trim(s)| - 1]))
  {
    TrimStartShape(s);
    TrimEndShape(TrimStart(s));
    var t := TrimStart(s);
    if TrimEnd(t) != [] {
      assert TrimEnd(t)[0] == t[0];
    }
  }

  lemma {:induction false} TrimStartBlankPrefix(w: string, x: string)
    requires AllBlank(w)
    ensures TrimStart(w + x) == TrimStart(x)
    decreases |w|
  {
    if w != [] {
      assert (w + x)[1..] == w[1..] + x;
      TrimStartBlankPrefix(w[1..], x);
    } else {
      assert w + x == x;
    }
  }

  lemma {:induction false} TrimEndBlankSuffix(x: string, w: string)
    requires AllBlank(w)
    ensures TrimEnd(x + w) == TrimEnd(x)
    decreases |w|
  {
    if w != [] {
      var w' := w[..|w| - 1];
      assert (x + w)[..|x + w| - 1] == x + w';
      TrimEndBlankSuffix(x, w');
    } else {
      assert x + w == x;
    }
  }

  lemma {:induction false} TrimStartAppend(x: string, y: string)
    requires TrimStart(x) != []
    ensures TrimStart(x + y) == TrimStart(x) + y
    decreases |x|
  {
    if IsBlank(x[0]) {
      assert (x + y)[1..] == x[1..] + y;
      TrimStartAppend(x[1..], y);
    }
  }

  /** Blanks around the text do not change what `trim()` returns. */
  lemma TrimIgnoresBlanks(w1: string, s: string, w2: string)
    requires AllBlank(w1) && AllBlank(w2)
    ensures Trim(w1 + s + w2) == Trim(s)
  {
    assert w1 + s + w2 == w1 + (s + w2);
    TrimStartBlankPrefix(w1, s + w2);
    if TrimStart(s) == [] {
      AllBlankTrimsAway(s, w2);
    } else {
      TrimStartAppend(s, w2);
      TrimEndBlankSuffix(TrimStart(s), w2);
    }
  }

  /** Text that is blank throughout, with blanks after it, trims to nothing. */
  lemma AllBlankTrimsAway(s: string, w2: string)
    requires TrimStart(s) == [] && AllBlank(w2)
    ensures Trim(s + w2) == [] && Trim(s) == []
  {
    TrimStartShape(s);
    assert s[..|s|] == s;
    BlankConcat(s, w2);
    BlankTrimStart(s + w2);
  }

  lemma BlankConcat(s: string, w: string)
    requires AllBlank(s) && AllBlank(w)
    ensures AllBlank(s + w)
  {
    assert forall i :: 0 <= i < |s + w| ==> (s + w)[i] == if i < |s| then s[i] else w[i - |s|];
  }

  lemma {:induction false} BlankTrimStart(w: string)
    requires AllBlank(w)
    ensures TrimStart(w) == []
  {
    if w != [] {
      BlankTrimStart(w[1..]);
    }
  }

  /** Text that starts and ends with a non-blank character is its own trim. */
  lemma TrimOfTrimmed(s: string)
    requires s == [] || (!IsBlank(s[0]) && !IsBlank(s[|s| - 1]))
    ensures Trim(s) == s
  {
  }

  // ------------------------------------------------- DecimalFormat's grammar

  /** Index of the first decimal separator, or |s| when there is none. */
  function IndexOfDot(s: string): (k: nat)
    ensures k <= |s|
    ensures k < |s| ==> s[k] == DECIMAL_SEPARATOR
    ensures forall i :: 0 <= i < k ==> s[i] != DECIMAL_SEPARATOR
  {
    if s == [] || s[0] == DECIMAL_SEPARATOR then 0 else 1 + IndexOfDot(s[1..])
  }

  /** Characters allowed before the decimal separator: digits and grouping separators. */
  predicate IsGrouped(s: string) {
    forall i :: 0 <= i < |s| ==> IsDigit(s[i]) || s[i] == GROUPING_SEPARATOR
  }

  /** The digits of s, grouping separators removed. */
  function Ungroup(s: string): (u: string)
    requires IsGrouped(s)
    ensures AllDigits(u)
  {
    if s == [] then []
    else Ungroup(s[..|s| - 1]) + (if s[|s| - 1] == GROUPING_SEPARATOR then [] else [s[|s| - 1]])
  }

  predicate HasDigit(s: string) {
    exists i :: 0 <= i < |s| && IsDigit(s[i])
  }

  /** The last grouping separator of s has no digit after it, read left to
      right as the parser does: a digit settles every separator before it. */
  function PendingSeparator(s: string): bool {
    if s == [] then false
    else if IsDigit(s[|s| - 1]) then false
    else if s[|s| - 1] == GROUPING_SEPARATOR then true
    else PendingSeparator(s[..|s| - 1])
  }

  /** Some digit of s lies after index i. */
  predicate DigitAfter(s: string, i: int) {
    exists j :: i < j < |s| && 0 <= j && IsDigit(s[j])
  }

  /** PendingSeparator(s) holds exactly when some grouping separator in s has
      no digit after it. */
  lemma {:induction false} PendingSeparatorMeaning(s: string)
    ensures PendingSeparator(s) <==>
      exists i :: 0 <= i < |s| && s[i] == GROUPING_SEPARATOR && !DigitAfter(s, i)
  {
    if s != [] {
      var n := |s| - 1;
      var p := s[..n];
      PendingSeparatorMeaning(p);
      if IsDigit(s[n]) {
        forall i | 0 <= i < n ensures DigitAfter(s, i) {
          assert IsDigit(s[n]);
        }
      } else if s[n] == GROUPING_SEPARATOR {
        assert !DigitAfter(s, n);
      } else {
        forall i | 0 <= i < n ensures DigitAfter(s, i) == DigitAfter(p, i) {
          if DigitAfter(s, i) {
            var j :| i < j < |s| && 0 <= j && IsDigit(s[j]);
            assert j < n && p[j] == s[j];
          }
        }
        if PendingSeparator(s) {
          var i :| 0 <= i < |p| && p[i] == GROUPING_SEPARATOR && !DigitAfter(p, i);
          assert s[i] == GROUPING_SEPARATOR && !DigitAfter(s, i);
        }
      }
    }
  }

  // --------------------------------------------------------- exact decimals

  /** The exact `BigDecimal` the format yields: a sign, the integer digits and
      the fraction digits, all as written (grouping separators removed). */
  datatype Decimal = Decimal(negative: bool, integerDigits: string, fractionDigits: string)

  predicate WellFormed(d: Decimal) {
    AllDigits(d.integerDigits) && AllDigits(d.fractionDigits)
  }

  /** The decimal's magnitude times 10^scale, where scale = |fractionDigits|. */
  function Unscaled(d: Decimal): nat
    requires WellFormed(d)
  {
    DigitsValue(d.integerDigits + d.fractionDigits)
  }

  /** The first n fraction digits, zero-padded on the right to exactly n. */
  function TruncatedFraction(f: string, n: nat): (t: string)
    requires AllDigits(f)
    ensures |t| == n && AllDigits(t)
  {
    if |f| >= n then f[..n] else f + Zeros(n - |f|)
  }

  /** The magnitude of the decimal times 10^n, truncated: the integer digits
      shifted, and the first n fraction digits (zero-padded) appended; with a
      negative n the integer digits divided by 10^-n. */
  function Magnitude(d: Decimal, n: int): int
    requires WellFormed(d)
  {
    if n >= 0 then DigitsValue(d.integerDigits) * Pow10(n) + DigitsValue(TruncatedFraction(d.fractionDigits, n))
    else DigitsValue(d.integerDigits) / Pow10(-n)
  }

  /** `movePointRight(n).toBigInteger()`: the decimal times 10^n, truncated
      toward zero. */
  function MovePointRight(d: Decimal, n: int): int
    requires WellFormed(d)
  {
    if d.negative then -Magnitude(d, n) else Magnitude(d, n)
  }

  /** What `DecimalFormat` reads from the text after the sign, when it reads
      all of it: the integer digits and the fraction digits. Accepted: digits
      and grouping separators, then optionally '.' and digits; at least one
      digit; no grouping separator after '.', and none without a digit
      somewhere after it. */
  function NumberParts(body: string): (parts: Option<(string, string)>)
    ensures parts.Some? ==> AllDigits(parts.value.0) && AllDigits(parts.value.1)
  {
    var dot := IndexOfDot(body);
    var integerPart := body[..dot];
    var fraction := if dot < |body| then body[dot + 1..] else [];
    if IsGrouped(integerPart) && AllDigits(fraction) && HasDigit(body) && !PendingSeparator(body) then
      Some((Ungroup(integerPart), fraction))
    else
      None
  }

  /** `DecimalFormat.parse` on the trimmed text, with the check that the
      whole text was consumed: an optional '-' prefix, then the number. */
  function ParseDecimal(text: string): (r: Result<Decimal, ParseError>)
    ensures r.Ok? ==> WellFormed(r.value)
    ensures r.Err? ==> r.error == ParseError(text)
  {
    var negative := |text| > 0 && text[0] == '-';
    var body := if negative then text[1..] else text;
    match NumberParts(body)
    case None => Err(ParseError(text))
    case Some((integerDigits, fractionDigits)) => Ok(Decimal(negative, integerDigits, fractionDigits))
  }

  /** `parseDecimalAmount(amount, decimalDigits)`. */
  function ParseDecimalAmount(amount: string, decimalDigits: int): Result<int, ParseError> {
    match ParseDecimal(Trim(amount))
    case Err(e) => Err(e)
    case Ok(d) => Ok(MovePointRight(d, decimalDigits))
  }

  // ------------------------------------------------------------ the scanner

  lemma HasDigitSnoc(s: string, c: char)
    ensures HasDigit(s + [c]) <==> HasDigit(s) || IsDigit(c)
  {
    if HasDigit(s) {
      var i :| 0 <= i < |s| && IsDigit(s[i]);
      assert (s + [c])[i] == s[i];
    }
    if IsDigit(c) {
      assert (s + [c])[|s|] == c;
    }
    if HasDigit(s + [c]) {
      var i :| 0 <= i < |s + [c]| && IsDigit((s + [c])[i]);
      if i < |s| {
        assert s[i] == (s + [c])[i];
      }
    }
  }

  /** The first separator of a run with none before it is where IndexOfDot stops. */
  lemma IndexOfDotAt(s: string, k: nat)
    requires k <= |s|
    requires k < |s| ==> s[k] == DECIMAL_SEPARATOR
    requires forall i :: 0 <= i < k ==> s[i] != DECIMAL_SEPARATOR
    ensures IndexOfDot(s) == k
  {
  }

  /** What the scanning loop knows after reading body[..position]: the
      characters read so far, split at the decimal separator at dotAt if one
      was seen, give integerDigits and fractionDigits; sawDigit and pending
      (a grouping separator not yet followed by a digit) describe them. */
  ghost predicate Scanned(body: string, position: nat, sawDecimal: bool, dotAt: nat,
                          integerDigits: string, fractionDigits: string, sawDigit: bool, pending: bool)
  {
    && position <= |body|
    && (sawDecimal <==> dotAt < position)
    && (!sawDecimal ==> dotAt == |body| && IntegerRead(body, position, integerDigits) && fractionDigits == "")
    && (sawDecimal ==> FractionRead(body, dotAt, position, integerDigits, fractionDigits))
    && PrefixSeen(body, position, sawDigit, pending)
  }

  /** No decimal separator yet: body[..position] are the integer digits, grouped. */
  ghost predicate IntegerRead(body: string, position: nat, integerDigits: string)
    requires position <= |body|
  {
    IsGrouped(body[..position]) && integerDigits == Ungroup(body[..position])
  }

  /** The decimal separator was at dotAt: the integer digits before it, the
      fraction digits between it and position. */
  ghost predicate FractionRead(body: string, dotAt: nat, position: nat, integerDigits: string, fractionDigits: string)
    requires dotAt < position <= |body|
  {
    && body[dotAt] == DECIMAL_SEPARATOR
    && IsGrouped(body[..dotAt]) && integerDigits == Ungroup(body[..dotAt])
    && fractionDigits == body[dotAt + 1..position] && AllDigits(fractionDigits)
  }

  /** Whether body[..position] holds a digit, and whether it ends in a
      grouping separator with no digit after it. */
  ghost predicate PrefixSeen(body: string, position: nat, sawDigit: bool, pending: bool)
    requires position <= |body|
  {
    sawDigit == HasDigit(body[..position]) && pending == PendingSeparator(body[..position])
  }

  /** Reading one more character: what it adds to the digit and separator
      summaries of the prefix. */
  lemma PrefixSnoc(body: string, position: nat)
    requires position < |body|
    ensures var c := body[position];
      && HasDigit(body[..position + 1]) == (HasDigit(body[..position]) || IsDigit(c))
      && PendingSeparator(body[..position + 1]) ==
         (if IsDigit(c) then false else if c == GROUPING_SEPARATOR then true else PendingSeparator(body[..position]))
  {
    var c := body[position];
    assert body[..position + 1] == body[..position] + [c];
    assert body[..position + 1][..position] == body[..position];
    HasDigitSnoc(body[..position], c);
  }

  /** Reading one more digit or grouping separator before the decimal separator. */
  lemma UngroupSnoc(body: string, position: nat)
    requires position < |body| && IsGrouped(body[..position])
    requires IsDigit(body[position]) || body[position] == GROUPING_SEPARATOR
    ensures var c := body[position];
      && IsGrouped(body[..position + 1])
      && Ungroup(body[..position + 1]) == Ungroup(body[..position]) + (if c == GROUPING_SEPARATOR then [] else [c])
  {
    var c := body[position];
    assert body[..position + 1] == body[..position] + [c];
    assert body[..position + 1][..position] == body[..position];
  }

  /** Reading one more digit after the decimal separator. */
  lemma FractionSnoc(body: string, dotAt: nat, position: nat)
    requires dotAt < position < |body| && AllDigits(body[dotAt + 1..position]) && IsDigit(body[position])
    ensures body[dotAt + 1..position + 1] == body[dotAt + 1..position] + [body[position]]
    ensures AllDigits(body[dotAt + 1..position + 1])
  {
    assert body[dotAt + 1..position + 1] == body[dotAt + 1..position] + [body[position]];
  }

  lemma ScanIntegerDigit(body: string, position: nat, dotAt: nat,
                         integerDigits: string, fractionDigits: string, sawDigit: bool, pending: bool)
    requires Scanned(body, position, false, dotAt, integerDigits, fractionDigits, sawDigit, pending)
    requires position < |body| && IsDigit(body[position])
    ensures Scanned(body, position + 1, false, dotAt, integerDigits + [body[position]], fractionDigits, true, false)
  {
    PrefixSnoc(body, position);
    UngroupSnoc(body, position);
  }

  lemma ScanFractionDigit(body: string, position: nat, dotAt: nat,
                          integerDigits: string, fractionDigits: string, sawDigit: bool, pending: bool)
    requires Scanned(body, position, true, dotAt, integerDigits, fractionDigits, sawDigit, pending)
    requires position < |body| && IsDigit(body[position])
    ensures Scanned(body, position + 1, true, dotAt, integerDigits, fractionDigits + [body[position]], true, false)
  {
    PrefixSnoc(body, position);
    FractionSnoc(body, dotAt, position);
  }

  lemma ScanDecimalSeparator(body: string, position: nat, dotAt: nat,
                             integerDigits: string, fractionDigits: string, sawDigit: bool, pending: bool)
    requires Scanned(body, position, false, dotAt, integerDigits, fractionDigits, sawDigit, pending)
    requires position < |body| && body[position] == DECIMAL_SEPARATOR
    ensures Scanned(body, position + 1, true, position, integerDigits, fractionDigits, sawDigit, pending)
  {
    PrefixSnoc(body, position);
    assert body[position + 1..position + 1] == [];
  }

  lemma ScanGroupingSeparator(body: string, position: nat, dotAt: nat,
                              integerDigits: string, fractionDigits: string, sawDigit: bool, pending: bool)
    requires Scanned(body, position, false, dotAt, integerDigits, fractionDigits, sawDigit, pending)
    requires position < |body| && body[position] == GROUPING_SEPARATOR
    ensures Scanned(body, position + 1, false, dotAt, integerDigits, fractionDigits, sawDigit, true)
  {
    PrefixSnoc(body, position);
    UngroupSnoc(body, position);
  }

  /** Where the cursor stopped and what it saw decide NumberParts. */
  lemma ScanConclusion(body: string, end: nat, sawDecimal: bool, dotAt: nat,
                       integerDigits: string, fractionDigits: string, sawDigit: bool, pending: bool)
    requires Scanned(body, end, sawDecimal, dotAt, integerDigits, fractionDigits, sawDigit, pending)
    requires end < |body| ==> !IsDigit(body[end])
    requires end < |body| && !sawDecimal ==> body[end] != DECIMAL_SEPARATOR && body[end] != GROUPING_SEPARATOR
    ensures NumberParts(body) ==
      if end < |body| || !sawDigit || pending then None else Some((integerDigits, fractionDigits))
  {
    if sawDecimal {
      StoppedAfterDot(body, end, dotAt, integerDigits, fractionDigits, sawDigit, pending);
    } else if end < |body| {
      StoppedBeforeDot(body, end, dotAt, integerDigits, fractionDigits, sawDigit, pending);
    } else {
      assert body[..end] == body;
      IndexOfDotAt(body, |body|);
    }
  }

  lemma StoppedAfterDot(body: string, end: nat, dotAt: nat,
                        integerDigits: string, fractionDigits: string, sawDigit: bool, pending: bool)
    requires Scanned(body, end, true, dotAt, integerDigits, fractionDigits, sawDigit, pending)
    requires end < |body| ==> !IsDigit(body[end])
    ensures NumberParts(body) ==
      if end < |body| || !sawDigit || pending then None else Some((integerDigits, fractionDigits))
  {
    assert forall i :: 0 <= i < dotAt ==> body[..dotAt][i] == body[i];
    IndexOfDotAt(body, dotAt);
    if end < |body| {
      assert body[dotAt + 1..][end - dotAt - 1] == body[end];
    } else {
      assert body[..end] == body;
    }
  }

  lemma StoppedBeforeDot(body: string, end: nat, dotAt: nat,
                         integerDigits: string, fractionDigits: string, sawDigit: bool, pending: bool)
    requires Scanned(body, end, false, dotAt, integerDigits, fractionDigits, sawDigit, pending)
    requires end < |body| && !IsDigit(body[end])
    requires body[end] != DECIMAL_SEPARATOR && body[end] != GROUPING_SEPARATOR
    ensures NumberParts(body) == None
  {
    var dot := IndexOfDot(body);
    assert forall i :: 0 <= i < end ==> body[..end][i] == body[i];
    assert dot > end;
    assert body[..dot][end] == body[end];
  }

  /** ParseDecimalAmount with the sign taken off the trimmed text. */
  lemma ParseBySign(amount: string, decimalDigits: int)
    ensures var text := Trim(amount);
      var negative := |text| > 0 && text[0] == '-';
      var body := if negative then text[1..] else text;
      ParseDecimalAmount(amount, decimalDigits) ==
        match NumberParts(body)
        case None => Err(ParseError(text))
        case Some((integerDigits, fractionDigits)) =>
          Ok(MovePointRight(Decimal(negative, integerDigits, fractionDigits), decimalDigits))
  {
  }

  /** `DecimalFormat.subparse` on the number after the sign: a cursor moves
      over digits and separators and stops at the first character that cannot
      continue the number; a grouping separator with no digit after it is
      backed up over. The number parts are read exactly when the cursor
      ends at the end of the text having seen a digit. */
  method ScanNumber(body: string) returns (position: nat, sawDigit: bool, integerDigits: string, fractionDigits: string)
    ensures position <= |body|
    ensures NumberParts(body) ==
      if position == |body| && sawDigit then Some((integerDigits, fractionDigits)) else None
  {
    position := 0;
    var sawDecimal := false;
    sawDigit := false;
    var backup := -1;
    integerDigits, fractionDigits := "", "";
    ghost var dotAt: nat := |body|;
    ghost var pending := false;
    while position < |body|
      invariant Scanned(body, position, sawDecimal, dotAt, integerDigits, fractionDigits, sawDigit, pending)
      invariant pending <==> backup != -1
      invariant backup != -1 ==> 0 <= backup < position
    {
      var ch := body[position];
      if IsDigit(ch) {
        if sawDecimal {
          ScanFractionDigit(body, position, dotAt, integerDigits, fractionDigits, sawDigit, pending);
          fractionDigits := fractionDigits + [ch];
        } else {
          ScanIntegerDigit(body, position, dotAt, integerDigits, fractionDigits, sawDigit, pending);
          integerDigits := integerDigits + [ch];
        }
        sawDigit := true;
        backup := -1;
        pending := false;
      } else if ch == DECIMAL_SEPARATOR {
        if sawDecimal {
          break;
        }
        ScanDecimalSeparator(body, position, dotAt, integerDigits, fractionDigits, sawDigit, pending);
        sawDecimal := true;
        dotAt := position;
      } else if ch == GROUPING_SEPARATOR {
        if sawDecimal {
          break;
        }
        ScanGroupingSeparator(body, position, dotAt, integerDigits, fractionDigits, sawDigit, pending);
        backup := position;
        pending := true;
      } else {
        break;
      }
      position := position + 1;
    }
    ScanConclusion(body, position, sawDecimal, dotAt, integerDigits, fractionDigits, sawDigit, pending);
    if backup != -1 {
      position := backup;
    }
  }

  /** The parse as the source performs it: `trim()`, the sign, the number
      read by the cursor, the check that the cursor reached the end, then the
      truncating scale. */
  method ParseDecimalAmountScan(amount: string, decimalDigits: int) returns (r: Result<int, ParseError>)
    ensures r == ParseDecimalAmount(amount, decimalDigits)
  {
    var text := Trim(amount);
    var negative := |text| > 0 && text[0] == '-';
    var body := if negative then text[1..] else text;
    var position, sawDigit, integerDigits, fractionDigits := ScanNumber(body);
    ParseBySign(amount, decimalDigits);
    if !sawDigit || position != |body| {
      r := Err(ParseError(text));
    } else {
      r := Ok(MovePointRight(Decimal(negative, integerDigits, fractionDigits), decimalDigits));
    }
  }

  // ------------------------------------------------------------ properties

  lemma TruncationAlgebra(m: int, u: int, i: int, t: int, r: int, p: int, q: int, k: int)
    requires 0 <= r < q && p >= 1 && k == p * q
    requires m == i * p + t && u == i * k + (t * q + r)
    ensures m * k <= u * p < (m + 1) * k
    ensures r == 0 ==> m * k == u * p
  {
    assert m * k == i * k * p + t * q * p;
    assert u * p == i * k * p + t * q * p + r * p;
    assert r * p < q * p;
  }

  lemma ExactAlgebra(m: int, u: int, i: int, g: int, p: int, q: int, k: int)
    requires p == k * q && k >= 1
    requires m == i * p + g * q && u == i * k + g
    ensures m * k == u * p && u * p < (m + 1) * k
  {
    assert m * k == i * p * k + g * q * k;
    assert u * p == i * k * p + g * (k * q);
  }

  /** Moving the point n >= 0 places right truncates toward zero: the
      magnitude is the largest integer m with m <= |value| * 10^n, where
      |value| = Unscaled(d) / 10^k for k fraction digits; it is exact when no
      fraction digit is dropped. The sign is applied afterwards, so negative
      amounts are truncated toward zero too. */
  lemma {:induction false} MovePointRightTruncates(d: Decimal, n: nat)
    requires WellFormed(d)
    ensures Magnitude(d, n) * Pow10(|d.fractionDigits|) <= Unscaled(d) * Pow10(n)
    ensures Unscaled(d) * Pow10(n) < (Magnitude(d, n) + 1) * Pow10(|d.fractionDigits|)
    ensures |d.fractionDigits| <= n ==> Magnitude(d, n) * Pow10(|d.fractionDigits|) == Unscaled(d) * Pow10(n)
  {
    DigitsValueAppend(d.integerDigits, d.fractionDigits);
    if |d.fractionDigits| >= n {
      DropsDigits(d, n);
    } else {
      PadsZeros(d, n);
    }
  }

  /** n or more fraction digits split into the n kept and the rest. */
  lemma SplitFraction(d: Decimal, n: nat)
    requires WellFormed(d) && |d.fractionDigits| >= n
    ensures AllDigits(d.fractionDigits[..n]) && AllDigits(d.fractionDigits[n..])
    ensures DigitsValue(d.fractionDigits) ==
      DigitsValue(d.fractionDigits[..n]) * Pow10(|d.fractionDigits| - n) + DigitsValue(d.fractionDigits[n..])
    ensures DigitsValue(d.fractionDigits[n..]) < Pow10(|d.fractionDigits| - n)
    ensures |d.fractionDigits| == n ==> DigitsValue(d.fractionDigits[n..]) == 0
    ensures Pow10(|d.fractionDigits|) == Pow10(n) * Pow10(|d.fractionDigits| - n)
    ensures Magnitude(d, n) == DigitsValue(d.integerDigits) * Pow10(n) + DigitsValue(d.fractionDigits[..n])
  {
    var f := d.fractionDigits;
    var head, tail := f[..n], f[n..];
    assert head + tail == f;
    DigitsValueAppend(head, tail);
    DigitsValueBound(tail);
    Pow10Add(n, |f| - n);
    assert TruncatedFraction(f, n) == head;
    if |f| == n {
      assert tail == [];
    }
  }

  /** n or more fraction digits: the ones after the n-th are dropped. */
  lemma DropsDigits(d: Decimal, n: nat)
    requires WellFormed(d) && |d.fractionDigits| >= n
    requires Unscaled(d) == DigitsValue(d.integerDigits) * Pow10(|d.fractionDigits|) + DigitsValue(d.fractionDigits)
    ensures Magnitude(d, n) * Pow10(|d.fractionDigits|) <= Unscaled(d) * Pow10(n)
    ensures Unscaled(d) * Pow10(n) < (Magnitude(d, n) + 1) * Pow10(|d.fractionDigits|)
    ensures |d.fractionDigits| == n ==> Magnitude(d, n) * Pow10(|d.fractionDigits|) == Unscaled(d) * Pow10(n)
  {
    var f := d.fractionDigits;
    SplitFraction(d, n);
    TruncationAlgebra(Magnitude(d, n), Unscaled(d), DigitsValue(d.integerDigits),
      DigitsValue(f[..n]), DigitsValue(f[n..]), Pow10(n), Pow10(|f| - n), Pow10(|f|));
  }

  /** Fewer than n fraction digits: zeros are appended and nothing is lost. */
  lemma PadsZeros(d: Decimal, n: nat)
    requires WellFormed(d) && |d.fractionDigits| < n
    requires Unscaled(d) == DigitsValue(d.integerDigits) * Pow10(|d.fractionDigits|) + DigitsValue(d.fractionDigits)
    ensures Magnitude(d, n) * Pow10(|d.fractionDigits|) == Unscaled(d) * Pow10(n)
    ensures Unscaled(d) * Pow10(n) < (Magnitude(d, n) + 1) * Pow10(|d.fractionDigits|)
  {
    var f := d.fractionDigits;
    var k := |f|;
    var z := Zeros(n - k);
    var t := TruncatedFraction(f, n);
    var i, g := DigitsValue(d.integerDigits), DigitsValue(f);
    var p, q, r := Pow10(n), Pow10(n - k), Pow10(k);
    assert DigitsValue(t) == g * q by {
      assert t == f + z;
      DigitsValueAppend(f, z);
      ZerosValue(n - k);
    }
    assert p == r * q by {
      Pow10Add(k, n - k);
    }
    assert Magnitude(d, n) == i * p + DigitsValue(t);
    ExactAlgebra(Magnitude(d, n), Unscaled(d), i, g, p, q, r);
  }

  lemma LeftAlgebra(m: int, u: int, i: int, f: int, p: int, k: int)
    requires p >= 1 && k >= 1 && 0 <= f < k && i >= 0
    requires m == i / p && u == i * k + f
    ensures m * p * k <= u < (m + 1) * p * k
  {
    var r := i % p;
    assert i == m * p + r && 0 <= r < p;
    SplitProduct(m * p, r, k);
    assert u == m * p * k + r * k + f;
    assert (r + 1) * k <= p * k by {
      MulMonotone(r + 1, p, k);
    }
    SplitProduct(m * p, p, k);
    assert (m + 1) * p * k == m * p * k + p * k;
  }

  lemma SplitProduct(a: int, b: int, k: int)
    ensures (a + b) * k == a * k + b * k
  {
  }

  lemma MulMonotone(a: int, b: int, k: int)
    requires a <= b && k >= 0
    ensures a * k <= b * k
  {
  }

  /** With a negative n (the source's `int` argument allows one) the point moves
      left: the magnitude is |value| / 10^-n truncated. */
  lemma MovePointLeftTruncates(d: Decimal, n: int)
    requires WellFormed(d) && n < 0
    ensures Magnitude(d, n) * Pow10(-n) * Pow10(|d.fractionDigits|) <= Unscaled(d)
    ensures Unscaled(d) < (Magnitude(d, n) + 1) * Pow10(-n) * Pow10(|d.fractionDigits|)
  {
    var f := d.fractionDigits;
    DigitsValueAppend(d.integerDigits, f);
    DigitsValueBound(f);
    LeftAlgebra(Magnitude(d, n), Unscaled(d), DigitsValue(d.integerDigits), DigitsValue(f), Pow10(-n), Pow10(|f|));
  }

  /** Blanks around the amount are ignored. */
  lemma BlanksIgnored(w1: string, s: string, w2: string, decimalDigits: int)
    requires AllBlank(w1) && AllBlank(w2)
    ensures ParseDecimalAmount(w1 + s + w2, decimalDigits) == ParseDecimalAmount(s, decimalDigits)
  {
    TrimIgnoresBlanks(w1, s, w2);
  }

  /** A leading '-' negates the amount. */
  lemma MinusNegates(signed: string, s: string, decimalDigits: int, value: int)
    requires s != [] && !IsBlank(s[0]) && !IsBlank(s[|s| - 1]) && s[0] != '-'
    requires signed == ['-'] + s
    requires ParseDecimalAmount(s, decimalDigits) == Ok(value)
    ensures ParseDecimalAmount(signed, decimalDigits) == Ok(-value)
  {
    var integerDigits, fractionDigits := AcceptedParts(s, decimalDigits, value);
    SignedNumberParses(signed, s, integerDigits, fractionDigits, decimalDigits, value);
  }

  /** The number parts of an accepted unsigned text, and the value they make. */
  lemma AcceptedParts(s: string, decimalDigits: int, value: int) returns (integerDigits: string, fractionDigits: string)
    requires s != [] && !IsBlank(s[0]) && !IsBlank(s[|s| - 1]) && s[0] != '-'
    requires ParseDecimalAmount(s, decimalDigits) == Ok(value)
    ensures NumberParts(s) == Some((integerDigits, fractionDigits))
    ensures MovePointRight(Decimal(false, integerDigits, fractionDigits), decimalDigits) == value
  {
    match NumberParts(s)
    case None =>
      BothRejected(['-'] + s, s, decimalDigits);
      assert false;
    case Some((i, f)) =>
      integerDigits, fractionDigits := i, f;
      BothAccepted(['-'] + s, s, i, f, decimalDigits);
      SameValue(ParseDecimalAmount(s, decimalDigits), value,
        MovePointRight(Decimal(false, i, f), decimalDigits));
  }

  lemma SameValue(r: Result<int, ParseError>, x: int, y: int)
    requires r == Ok(x) && r == Ok(y)
    ensures x == y && -x == -y
  {
  }

  /** A leading '-' before text that is rejected is rejected too. */
  lemma MinusRejects(signed: string, s: string, decimalDigits: int)
    requires s != [] && !IsBlank(s[0]) && !IsBlank(s[|s| - 1]) && s[0] != '-'
    requires signed == ['-'] + s
    requires ParseDecimalAmount(s, decimalDigits).Err?
    ensures ParseDecimalAmount(signed, decimalDigits) == Err(ParseError(signed))
  {
    match NumberParts(s)
    case None =>
      BothRejected(signed, s, decimalDigits);
    case Some((integerDigits, fractionDigits)) =>
      BothAccepted(signed, s, integerDigits, fractionDigits, decimalDigits);
  }

  lemma BothAccepted(signed: string, s: string, integerDigits: string, fractionDigits: string, decimalDigits: int)
    requires s != [] && !IsBlank(s[0]) && !IsBlank(s[|s| - 1]) && s[0] != '-'
    requires signed == ['-'] + s && NumberParts(s) == Some((integerDigits, fractionDigits))
    ensures ParseDecimalAmount(s, decimalDigits) == Ok(MovePointRight(Decimal(false, integerDigits, fractionDigits), decimalDigits))
    ensures ParseDecimalAmount(signed, decimalDigits) == Ok(-MovePointRight(Decimal(false, integerDigits, fractionDigits), decimalDigits))
  {
    var value := MovePointRight(Decimal(false, integerDigits, fractionDigits), decimalDigits);
    SignedNumberParses(signed, s, integerDigits, fractionDigits, decimalDigits, value);
    TrimOfTrimmed(s);
    UnsignedDecimal(s, integerDigits, fractionDigits);
    TrimmedParse(s, Decimal(false, integerDigits, fractionDigits), decimalDigits, value);
  }

  /** The sign does not enter the magnitude. */
  lemma SignFlips(integerDigits: string, fractionDigits: string, decimalDigits: int, value: int)
    requires AllDigits(integerDigits) && AllDigits(fractionDigits)
    requires MovePointRight(Decimal(false, integerDigits, fractionDigits), decimalDigits) == value
    ensures MovePointRight(Decimal(true, integerDigits, fractionDigits), decimalDigits) == -value
  {
    var negative, positive := Decimal(true, integerDigits, fractionDigits), Decimal(false, integerDigits, fractionDigits);
    assert negative.integerDigits == positive.integerDigits && negative.fractionDigits == positive.fractionDigits;
    assert Magnitude(negative, decimalDigits) == Magnitude(positive, decimalDigits);
  }

  lemma BothRejected(signed: string, s: string, decimalDigits: int)
    requires s != [] && !IsBlank(s[0]) && !IsBlank(s[|s| - 1]) && s[0] != '-'
    requires signed == ['-'] + s && NumberParts(s) == None
    ensures ParseDecimalAmount(s, decimalDigits) == Err(ParseError(s))
    ensures ParseDecimalAmount(signed, decimalDigits) == Err(ParseError(signed))
  {
    TrimOfTrimmed(s);
    SignedTrimmed(signed, s);
    ParseBySign(signed, decimalDigits);
    ParseBySign(s, decimalDigits);
  }

  lemma SignedTrimmed(signed: string, s: string)
    requires s != [] && !IsBlank(s[|s| - 1])
    requires signed == ['-'] + s
    ensures |signed| > 1 && signed[0] == '-' && signed[1..] == s
    ensures Trim(signed) == signed
  {
    assert signed[0] == '-' && signed[1..] == s && signed[|signed| - 1] == s[|s| - 1];
    TrimOfTrimmed(signed);
  }

  lemma {:induction false} UngroupDigits(s: string)
    requires AllDigits(s)
    ensures IsGrouped(s) && Ungroup(s) == s
  {
    if s != [] {
      UngroupDigits(s[..|s| - 1]);
      assert s[..|s| - 1] + [s[|s| - 1]] == s;
    }
  }

  lemma {:induction false} NoSeparatorNotPending(s: string)
    requires forall i :: 0 <= i < |s| ==> s[i] != GROUPING_SEPARATOR
    ensures !PendingSeparator(s)
  {
    if s != [] {
      NoSeparatorNotPending(s[..|s| - 1]);
    }
  }

  lemma NumberPartsOfDigits(integerDigits: string, fractionDigits: string)
    requires |integerDigits| > 0 && AllDigits(integerDigits) && AllDigits(fractionDigits)
    ensures NumberParts(integerDigits + "." + fractionDigits) == Some((integerDigits, fractionDigits))
    ensures NumberParts(integerDigits) == Some((integerDigits, ""))
  {
    DecimalParts(integerDigits, fractionDigits);
    WholeParts(integerDigits);
  }

  lemma DecimalParts(integerDigits: string, fractionDigits: string)
    requires |integerDigits| > 0 && AllDigits(integerDigits) && AllDigits(fractionDigits)
    ensures NumberParts(integerDigits + "." + fractionDigits) == Some((integerDigits, fractionDigits))
  {
    var body := integerDigits + "." + fractionDigits;
    var k := |integerDigits|;
    DecimalLayout(integerDigits, fractionDigits);
    IndexOfDotAt(body, k);
    UngroupDigits(integerDigits);
    NoSeparatorNotPending(body);
  }

  lemma DecimalLayout(integerDigits: string, fractionDigits: string)
    requires |integerDigits| > 0 && AllDigits(integerDigits) && AllDigits(fractionDigits)
    ensures var body := integerDigits + "." + fractionDigits;
      var k := |integerDigits|;
      && k < |body| && body[k] == DECIMAL_SEPARATOR && body[..k] == integerDigits && body[k + 1..] == fractionDigits
      && (forall i :: 0 <= i < k ==> body[i] != DECIMAL_SEPARATOR)
      && (forall i :: 0 <= i < |body| ==> body[i] != GROUPING_SEPARATOR)
      && IsDigit(body[0])
  {
  }

  lemma WholeParts(integerDigits: string)
    requires |integerDigits| > 0 && AllDigits(integerDigits)
    ensures NumberParts(integerDigits) == Some((integerDigits, ""))
  {
    var k := |integerDigits|;
    IndexOfDotAt(integerDigits, k);
    UngroupDigits(integerDigits);
    assert integerDigits[..k] == integerDigits;
    NoSeparatorNotPending(integerDigits);
    assert IsDigit(integerDigits[0]);
  }

  /** Digits, a '.', and digits (possibly none) are read as that decimal. */
  lemma PlainDecimalParses(integerDigits: string, fractionDigits: string, decimalDigits: int)
    requires |integerDigits| > 0 && AllDigits(integerDigits) && AllDigits(fractionDigits)
    ensures ParseDecimalAmount(integerDigits + "." + fractionDigits, decimalDigits)
      == Ok(MovePointRight(Decimal(false, integerDigits, fractionDigits), decimalDigits))
  {
    PlainDecimalTrimmed(integerDigits, fractionDigits);
    PlainDecimalRead(integerDigits, fractionDigits);
    TrimmedParse(integerDigits + "." + fractionDigits, Decimal(false, integerDigits, fractionDigits), decimalDigits,
      MovePointRight(Decimal(false, integerDigits, fractionDigits), decimalDigits));
  }

  lemma PlainDecimalTrimmed(integerDigits: string, fractionDigits: string)
    requires |integerDigits| > 0 && AllDigits(integerDigits) && AllDigits(fractionDigits)
    ensures Trim(integerDigits + "." + fractionDigits) == integerDigits + "." + fractionDigits
  {
    var body := integerDigits + "." + fractionDigits;
    assert body[0] == integerDigits[0];
    if fractionDigits == [] {
      assert body[|body| - 1] == DECIMAL_SEPARATOR;
    } else {
      assert body[|body| - 1] == fractionDigits[|fractionDigits| - 1];
    }
    TrimOfTrimmed(body);
  }

  lemma PlainDecimalRead(integerDigits: string, fractionDigits: string)
    requires |integerDigits| > 0 && AllDigits(integerDigits) && AllDigits(fractionDigits)
    ensures ParseDecimal(integerDigits + "." + fractionDigits) == Ok(Decimal(false, integerDigits, fractionDigits))
  {
    var body := integerDigits + "." + fractionDigits;
    assert body[0] == integerDigits[0];
    NumberPartsOfDigits(integerDigits, fractionDigits);
    UnsignedDecimal(body, integerDigits, fractionDigits);
  }

  /** Digits alone are read as that whole number. */
  lemma WholeNumberParses(integerDigits: string, decimalDigits: int)
    requires |integerDigits| > 0 && AllDigits(integerDigits)
    ensures ParseDecimalAmount(integerDigits, decimalDigits)
      == Ok(MovePointRight(Decimal(false, integerDigits, ""), decimalDigits))
  {
    assert IsDigit(integerDigits[0]) && IsDigit(integerDigits[|integerDigits| - 1]);
    TrimOfTrimmed(integerDigits);
    NumberPartsOfDigits(integerDigits, "");
    UnsignedDecimal(integerDigits, integerDigits, "");
    TrimmedParse(integerDigits, Decimal(false, integerDigits, ""), decimalDigits,
      MovePointRight(Decimal(false, integerDigits, ""), decimalDigits));
  }

  /** A '-' before text that reads as a number reads as that number, negated. */
  lemma SignedNumberParses(signed: string, body: string, integerDigits: string, fractionDigits: string,
                           decimalDigits: int, value: int)
    requires body != [] && !IsBlank(body[|body| - 1]) && signed == ['-'] + body
    requires NumberParts(body) == Some((integerDigits, fractionDigits))
    requires MovePointRight(Decimal(false, integerDigits, fractionDigits), decimalDigits) == value
    ensures ParseDecimalAmount(signed, decimalDigits) == Ok(-value)
  {
    SignedTrimmed(signed, body);
    NegativeDecimal(signed, body, integerDigits, fractionDigits);
    SignFlips(integerDigits, fractionDigits, decimalDigits, value);
    TrimmedParse(signed, Decimal(true, integerDigits, fractionDigits), decimalDigits, -value);
  }

  lemma NegativeDecimal(signed: string, body: string, integerDigits: string, fractionDigits: string)
    requires |signed| > 1 && signed[0] == '-' && signed[1..] == body
    requires NumberParts(body) == Some((integerDigits, fractionDigits))
    ensures ParseDecimal(signed) == Ok(Decimal(true, integerDigits, fractionDigits))
  {
  }

  /** '-', digits, a '.', and digits are read as that decimal, negated. */
  lemma NegativeDecimalParses(integerDigits: string, fractionDigits: string, decimalDigits: int, value: int)
    requires |integerDigits| > 0 && AllDigits(integerDigits) && AllDigits(fractionDigits)
    requires MovePointRight(Decimal(false, integerDigits, fractionDigits), decimalDigits) == value
    ensures ParseDecimalAmount(['-'] + (integerDigits + "." + fractionDigits), decimalDigits) == Ok(-value)
  {
    var body := integerDigits + "." + fractionDigits;
    NumberPartsOfDigits(integerDigits, fractionDigits);
    if fractionDigits == [] {
      assert body[|body| - 1] == DECIMAL_SEPARATOR;
    } else {
      assert body[|body| - 1] == fractionDigits[|fractionDigits| - 1];
    }
    SignedNumberParses(['-'] + body, body, integerDigits, fractionDigits, decimalDigits, value);
  }

  /** '-' and digits are read as that whole number, negated. */
  lemma NegativeWholeParses(integerDigits: string, decimalDigits: int, value: int)
    requires |integerDigits| > 0 && AllDigits(integerDigits)
    requires MovePointRight(Decimal(false, integerDigits, ""), decimalDigits) == value
    ensures ParseDecimalAmount(['-'] + integerDigits, decimalDigits) == Ok(-value)
  {
    NumberPartsOfDigits(integerDigits, "");
    assert IsDigit(integerDigits[|integerDigits| - 1]);
    SignedNumberParses(['-'] + integerDigits, integerDigits, integerDigits, "", decimalDigits, value);
  }

  /** A text without a sign whose number parts are known. */
  lemma UnsignedDecimal(body: string, integerDigits: string, fractionDigits: string)
    requires |body| > 0 && body[0] != '-'
    requires NumberParts(body) == Some((integerDigits, fractionDigits))
    ensures ParseDecimal(body) == Ok(Decimal(false, integerDigits, fractionDigits))
  {
  }

  /** A text that is its own trim is parsed as it stands. */
  lemma TrimmedParse(body: string, d: Decimal, decimalDigits: int, value: int)
    requires Trim(body) == body && ParseDecimal(body) == Ok(d)
    requires MovePointRight(d, decimalDigits) == value
    ensures ParseDecimalAmount(body, decimalDigits) == Ok(value)
  {
  }

  /** A character other than a digit, a separator or a leading '-' anywhere
      in the trimmed text makes the parse fail. */
  lemma ForeignCharacterRejected(amount: string, j: nat, decimalDigits: int)
    requires j < |Trim(amount)|
    requires var c := Trim(amount)[j];
      !IsDigit(c) && c != GROUPING_SEPARATOR && c != DECIMAL_SEPARATOR && !(j == 0 && c == '-')
    ensures ParseDecimalAmount(amount, decimalDigits).Err?
  {
    var text := Trim(amount);
    var negative := |text| > 0 && text[0] == '-';
    var body := if negative then text[1..] else text;
    var at := if negative then j - 1 else j;
    assert 0 <= at < |body| && body[at] == text[j];
    ForeignCharacterInNumber(body, at);
    ParseBySign(amount, decimalDigits);
  }

  lemma ForeignCharacterInNumber(body: string, at: nat)
    requires at < |body|
    requires !IsDigit(body[at]) && body[at] != GROUPING_SEPARATOR && body[at] != DECIMAL_SEPARATOR
    ensures NumberParts(body) == None
  {
    var dot := IndexOfDot(body);
    if at < dot {
      assert body[..dot][at] == body[at];
    } else {
      assert body[dot + 1..][at - dot - 1] == body[at];
    }
  }

  /** Text without a single digit is rejected. */
  lemma NoDigitRejected(amount: string, decimalDigits: int)
    requires forall i :: 0 <= i < |Trim(amount)| ==> !IsDigit(Trim(amount)[i])
    ensures ParseDecimalAmount(amount, decimalDigits).Err?
  {
  }
}
