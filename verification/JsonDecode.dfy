/** What the JSON reader makes of number and string tokens (json_reader.cpp). */
module JsonDecode {
  import opened Common
  import opened JsonValue
  import opened JsonText
  import opened JsonScan

  /** Which tokens `sscanf` with "%lf" accepts is not modelled: it is any function. */
  type Scanf = string -> bool

  // ----- Numbers ----------------------------------------------------------------------------

  predicate IsDigit(c: char) {
    '0' <= c <= '9'
  }

  function DecodeDouble(tok: string, scan: Scanf): Option<Value> {
    if scan(tok) then Some(Real(tok)) else None
  }

  /** A token that `decodeNumber` leaves to `decodeDouble` for its characters. */
  predicate LooksDouble(tok: string) {
    exists i | 0 <= i < |tok| :: tok[i] in ".eE+" || (tok[i] == '-' && i != 0)
  }

  datatype Digits = NotDigits | TooLarge | Number(n: nat)

  /** The accumulating loop of `decodeNumber`. */
  function Accumulate(ds: string, value: nat, threshold: nat): Digits {
    if ds == [] then Number(value)
    else if !IsDigit(ds[0]) then NotDigits
    else if value >= threshold then TooLarge
    else Accumulate(ds[1..], value * 10 + (ds[0] as int - '0' as int), threshold)
  }

  function Threshold(negative: bool): nat {
    (if negative then -MIN_INT else MAX_UINT) / 10
  }

  function DecodeNumber(tok: string, scan: Scanf): Option<Value>
    requires tok != []
  {
    if LooksDouble(tok) then DecodeDouble(tok, scan)
    else
      var negative := tok[0] == '-';
      match Accumulate(if negative then tok[1..] else tok, 0, Threshold(negative))
      case NotDigits => None
      case TooLarge => DecodeDouble(tok, scan)
      case Number(n) => Some(if negative then Int(0 - n) else if n <= MAX_INT then Int(n) else UInt(n))
  }

  /** The number a string of digits spells. */
  function NumberOf(ds: string): nat
    requires forall i | 0 <= i < |ds| :: IsDigit(ds[i])
  {
    if ds == [] then 0
    else
      assert IsDigit(ds[|ds| - 1]);
      NumberOf(ds[..|ds| - 1]) * 10 + (ds[|ds| - 1] as int - '0' as int)
  }

  /** The loop over any digits gives their exact number, or gives up, and it gives up exactly when all
      digits but the last already reach the threshold. */
  lemma {:induction false} AccumulateExact(ds: string, done: string, threshold: nat)
    requires forall i | 0 <= i < |ds| :: IsDigit(ds[i])
    requires forall i | 0 <= i < |done| :: IsDigit(done[i])
    requires ds == [] ==> done == [] || NumberOf(done) / 10 < threshold
    requires done == [] || NumberOf(done) / 10 < threshold
    ensures forall i | 0 <= i < |done + ds| :: IsDigit((done + ds)[i])
    ensures Accumulate(ds, NumberOf(done), threshold) ==
      if done + ds != [] && NumberOf(done + ds) / 10 >= threshold then TooLarge else Number(NumberOf(done + ds))
    decreases |ds|
  {
    if ds == [] {
      assert done + ds == done;
    } else {
      var next := done + [ds[0]];
      assert next[..|next| - 1] == done;
      assert NumberOf(next) / 10 == NumberOf(done);
      assert next + ds[1..] == done + ds;
      if NumberOf(done) >= threshold {
        NumberGrows(next, ds[1..]);
      } else {
        AccumulateExact(ds[1..], next, threshold);
      }
    }
  }

  lemma {:induction false} NumberGrows(ds: string, more: string)
    requires forall i | 0 <= i < |ds| :: IsDigit(ds[i])
    requires forall i | 0 <= i < |more| :: IsDigit(more[i])
    ensures forall i | 0 <= i < |ds + more| :: IsDigit((ds + more)[i])
    ensures NumberOf(ds + more) >= NumberOf(ds)
    decreases |more|
  {
    if more == [] {
      assert ds + more == ds;
    } else {
      NumberGrows(ds, more[..|more| - 1]);
      assert (ds + more)[..|ds + more| - 1] == ds + more[..|more| - 1];
    }
  }

  lemma {:induction false} NumberOfDecimal(n: nat)
    ensures NumberOf(Decimal(n)) == n
  {
    var t := Decimal(n);
    if n >= 10 {
      NumberOfDecimal(n / 10);
      LastDigit(Decimal(n / 10), n % 10);
    } else {
      LastDigit([], n);
      assert NumberOf([]) == 0 && t == [] + [Digit(n)];
    }
  }

  lemma LastDigit(ds: string, d: nat)
    requires d < 10 && forall i | 0 <= i < |ds| :: IsDigit(ds[i])
    ensures forall i | 0 <= i < |ds| + 1 :: IsDigit((ds + [Digit(d)])[i])
    ensures NumberOf(ds + [Digit(d)]) == NumberOf(ds) * 10 + d
  {
    var t := ds + [Digit(d)];
    assert t[..|t| - 1] == ds;
  }

  /** What an integer comes back as: itself while its text stays within the reader's thresholds. */
  function IntAgain(i: int): Value {
    if MIN_INT + 9 <= i <= MAX_INT then Int(i)
    else if MAX_INT < i <= MAX_UINT - 6 then UInt(i)
    else Real(IntText(i))
  }

  /** The accumulator stays below ten thresholds, and so within an `unsigned int`. */
  lemma {:induction false} AccumulateBounded(ds: string, value: nat, threshold: nat)
    requires value < 10 * threshold
    ensures Accumulate(ds, value, threshold).Number? ==> Accumulate(ds, value, threshold).n < 10 * threshold
  {
    if ds != [] && IsDigit(ds[0]) && value < threshold {
      AccumulateBounded(ds[1..], value * 10 + (ds[0] as int - '0' as int), threshold);
    }
  }

  lemma DecodedNumberStorable(tok: string, scan: Scanf)
    requires tok != []
    ensures var v := DecodeNumber(tok, scan); v.Some? ==> Storable(v.value) && Faithful(v.value)
  {
    hide Accumulate, LooksDouble;
    var negative := tok[0] == '-';
    AccumulateBounded(if negative then tok[1..] else tok, 0, Threshold(negative));
  }

  lemma DigitsOnly(i: int)
    ensures var t := IntText(i);
      && t != [] && !LooksDouble(t) && (t[0] == '-' <==> i < 0)
      && (if i < 0 then t[1..] else t) == Decimal(if i < 0 then -i else i)
  {
    hide Decimal;
  }

  lemma DecimalAccumulated(n: nat, threshold: nat)
    ensures Accumulate(Decimal(n), 0, threshold) == if n / 10 >= threshold then TooLarge else Number(n)
  {
    hide Accumulate, Decimal, NumberOf;
    var ds := Decimal(n);
    NumberOfDecimal(n);
    assert [] + ds == ds;
    NumberOfNone();
    AccumulateExact(ds, [], threshold);
  }

  /** Reading a written number: exact from -2147483639 to 4294967289, a real beyond. */
  lemma DecodeIntText(i: int, scan: Scanf)
    requires MIN_INT <= i <= MAX_UINT
    ensures DecodeNumber(IntText(i), scan) ==
      if IntAgain(i).Real? then DecodeDouble(IntText(i), scan) else Some(IntAgain(i))
  {
    hide LooksDouble, IntText, Decimal, Accumulate;
    DigitsOnly(i);
    DecimalAccumulated(if i < 0 then -i else i, Threshold(i < 0));
  }

  lemma NumberOfNone()
    ensures NumberOf([]) == 0
  {
  }

  // ----- Strings ----------------------------------------------------------------------------

  function HexValue(c: char): Option<nat> {
    if '0' <= c <= '9' then Some(c as int - '0' as int)
    else if 'a' <= c <= 'f' then Some(c as int - 'a' as int + 10)
    else if 'A' <= c <= 'F' then Some(c as int - 'A' as int + 10)
    else None
  }

  /** `decodeUnicodeEscapeSequence`: four hexadecimal digits. */
  function HexFour(b: string): (r: Option<nat>)
    ensures r.Some? ==> |b| >= 4 && r.value < 0x1_0000
  {
    if |b| < 4 then None
    else
      var d0, d1, d2, d3 := HexValue(b[0]), HexValue(b[1]), HexValue(b[2]), HexValue(b[3]);
      if d0.Some? && d1.Some? && d2.Some? && d3.Some? then
        Some(((d0.value * 16 + d1.value) * 16 + d2.value) * 16 + d3.value)
      else None
  }

  /** `decodeUnicodeCodePoint`, after the `u`: the code point and what remains. */
  function CodePoint(b: string): (r: Option<(nat, string)>)
    ensures r.Some? ==> |r.value.1| < |b| && r.value.0 <= 0x10_ffff
  {
    var high := HexFour(b);
    if high.None? then None
    else if !(0xd800 <= high.value <= 0xdbff) then Some((high.value, b[4..]))
    else if |b| - 4 < 6 || b[4] != '\\' || b[5] != 'u' then None
    else
      var low := HexFour(b[6..]);
      if low.None? then None
      else Some((0x1_0000 + high.value % 0x400 * 0x400 + low.value % 0x400, b[10..]))
  }

  /** `codePointToUTF8`. */
  function Utf8(cp: nat): string
    requires cp <= 0x10_ffff
  {
    if cp <= 0x7f then [cp as char]
    else if cp <= 0x7ff then [(0xc0 + cp / 64 % 32) as char, (0x80 + cp % 64) as char]
    else if cp <= 0xffff then
      [(0xe0 + cp / 4096 % 16) as char, (0x80 + cp / 64 % 64) as char, (0x80 + cp % 64) as char]
    else
      [(0xf0 + cp / 262144 % 8) as char, (0x80 + cp / 4096 % 64) as char,
       (0x80 + cp / 64 % 64) as char, (0x80 + cp % 64) as char]
  }

  function Unescape(c: char): Option<char> {
    if c == '"' then Some('"')
    else if c == '/' then Some('/')
    else if c == '\\' then Some('\\')
    else if c == 'b' then Some(BACKSPACE)
    else if c == 'f' then Some(FORMFEED)
    else if c == 'n' then Some('\n')
    else if c == 'r' then Some('\r')
    else if c == 't' then Some('\t')
    else None
  }

  /** `decodeString`, of the text between the quotes. */
  function DecodeBody(b: string): Option<string>
    decreases |b|
  {
    if b == [] || b[0] == '"' then Some([])
    else if b[0] != '\\' then Prefix([b[0]], DecodeBody(b[1..]))
    else if |b| == 1 then None
    else if b[1] == 'u' then
      var u := CodePoint(b[2..]);
      if u.None? then None else Prefix(Utf8(u.value.0), DecodeBody(u.value.1))
    else if Unescape(b[1]).Some? then Prefix([Unescape(b[1]).value], DecodeBody(b[2..]))
    else None
  }

  function Prefix(s: string, r: Option<string>): Option<string> {
    if r.Some? then Some(s + r.value) else None
  }

  /** `decodeString`, of a token with its quotes. */
  function DecodeString(tok: string): Option<string>
    requires |tok| >= 2
  {
    DecodeBody(tok[1..|tok| - 1])
  }

  // ----- Escaping and unescaping ------------------------------------------------------------

  lemma DecodeShort(e: char, c: char, rest: string)
    requires Unescape(e) == Some(c)
    ensures DecodeBody(['\\', e] + rest) == Prefix([c], DecodeBody(rest))
  {
    var b := ['\\', e] + rest;
    assert b[0] == '\\' && b[1] == e && b[2..] == rest;
  }

  lemma DecodeControl(c: char, rest: string)
    requires IsControl(c)
    ensures DecodeBody("\\u00" + [if c as int < 0x10 then '0' else '1', "0123456789ABCDEF"[c as int % 16]] + rest)
      == Prefix([c], DecodeBody(rest))
  {
    var h := [if c as int < 0x10 then '0' else '1', "0123456789ABCDEF"[c as int % 16]];
    var b := "\\u00" + h + rest;
    assert b[0] == '\\' && b[1] == 'u';
    var d := b[2..];
    assert d == "00" + h + rest && d[4..] == rest;
    ControlDigits(c, d);
  }

  lemma ControlDigits(c: char, d: string)
    requires IsControl(c) && |d| >= 4 && d[0] == d[1] == '0'
    requires d[2] == (if c as int < 0x10 then '0' else '1') && d[3] == "0123456789ABCDEF"[c as int % 16]
    ensures HexFour(d) == Some(c as int)
  {
  }

  lemma DecodePlain(c: char, rest: string)
    requires c != '"' && c != '\\'
    ensures DecodeBody([c] + rest) == Prefix([c], DecodeBody(rest))
  {
    assert ([c] + rest)[1..] == rest;
  }

  lemma DecodeEscaped(c: char, rest: string)
    requires c != '\0'
    ensures DecodeBody(Escape(c) + rest) == Prefix([c], DecodeBody(rest))
  {
    hide DecodeBody;
    if c == '"' {
      DecodeShort('"', c, rest);
    } else if c == '\\' {
      DecodeShort('\\', c, rest);
    } else if c == BACKSPACE {
      DecodeShort('b', c, rest);
    } else if c == FORMFEED {
      DecodeShort('f', c, rest);
    } else if c == '\n' {
      DecodeShort('n', c, rest);
    } else if c == '\r' {
      DecodeShort('r', c, rest);
    } else if c == '\t' {
      DecodeShort('t', c, rest);
    } else if IsControl(c) {
      DecodeControl(c, rest);
      assert Escape(c) == "\\u00" + [if c as int < 0x10 then '0' else '1', "0123456789ABCDEF"[c as int % 16]];
    } else {
      DecodePlain(c, rest);
    }
  }

  /** Unescaping undoes escaping. */
  lemma {:induction false} DecodeEscapeAll(s: string)
    requires '\0' !in s
    ensures DecodeBody(EscapeAll(s)) == Some(s)
  {
    if s != [] {
      DecodeEscapeAll(s[1..]);
      DecodeEscaped(s[0], EscapeAll(s[1..]));
      assert s == [s[0]] + s[1..];
    }
  }

  // ----- Scanner and decoder agree ----------------------------------------------------------

  /** Every quote and every backslash of a text is escaped, and the last backslash escapes something. */
  ghost predicate Escaped(b: string)
    decreases |b|
  {
    if b == [] then true
    else if b[0] == '\\' then |b| >= 2 && Escaped(b[2..])
    else b[0] != '"' && Escaped(b[1..])
  }

  /** Between the quotes of a string token, as the scanner finds them, everything is escaped. */
  lemma {:induction false} StringTokenEscaped(doc: string, p: nat)
    requires p <= |doc| && StringEnd(doc, p).1
    ensures Escaped(doc[p..StringEnd(doc, p).0 - 1])
    decreases |doc| - p
  {
    var end := StringEnd(doc, p).0;
    if doc[p] == '\\' {
      assert p + 1 < |doc|;
      StringTokenEscaped(doc, p + 2);
      assert doc[p..end - 1][2..] == doc[p + 2..end - 1];
    } else if doc[p] != '"' {
      StringTokenEscaped(doc, p + 1);
      assert doc[p..end - 1][1..] == doc[p + 1..end - 1];
    }
  }

  /** Decoding a text, `decodeString` meets neither a quote that would end it early nor a backslash
      with nothing after it. (It may still meet an escape it does not know, and stop there.) */
  ghost predicate WalksClean(b: string)
    decreases |b|
  {
    if b == [] then true
    else if b[0] == '"' then false
    else if b[0] != '\\' then WalksClean(b[1..])
    else if |b| == 1 then false
    else if b[1] == 'u' then CodePoint(b[2..]).Some? ==> WalksClean(CodePoint(b[2..]).value.1)
    else Unescape(b[1]).Some? ==> WalksClean(b[2..])
  }

  lemma HexIsPlain(b: string)
    requires Escaped(b) && HexFour(b).Some?
    ensures Escaped(b[4..])
  {
    assert b[1..][1..] == b[2..] && b[2..][1..] == b[3..] && b[3..][1..] == b[4..];
    assert Escaped(b[1..]);
    assert Escaped(b[2..]);
    assert Escaped(b[3..]);
  }

  lemma CodePointIsPlain(b: string)
    requires Escaped(b) && CodePoint(b).Some?
    ensures Escaped(CodePoint(b).value.1)
  {
    HexIsPlain(b);
    if 0xd800 <= HexFour(b).value <= 0xdbff {
      assert b[4..][2..] == b[6..] && b[4..][0] == '\\';
      HexIsPlain(b[6..]);
      assert b[6..][4..] == b[10..];
    }
  }

  lemma {:induction false} EscapedWalksClean(b: string)
    requires Escaped(b)
    ensures WalksClean(b)
    decreases |b|
  {
    if b != [] && b[0] != '\\' {
      EscapedWalksClean(b[1..]);
    } else if b != [] && b[1] == 'u' {
      if CodePoint(b[2..]).Some? {
        CodePointIsPlain(b[2..]);
        EscapedWalksClean(CodePoint(b[2..]).value.1);
      }
    } else if b != [] {
      EscapedWalksClean(b[2..]);
    }
  }

  // ----- Unicode ----------------------------------------------------------------------------

  /** The code point that one UTF-8 sequence stands for, if it is a shortest form (section 3 of RFC 3629,
      which surrogates are let through here as they are by the reader). */
  function Utf8Value(s: string): Option<nat> {
    if |s| == 1 && s[0] as int < 0x80 then Some(s[0] as int)
    else if |s| == 2 && 0xc0 <= s[0] as int < 0xe0 && Continues(s[1]) then
      AtLeast(0x80, (s[0] as int - 0xc0) * 64 + Six(s[1]))
    else if |s| == 3 && 0xe0 <= s[0] as int < 0xf0 && Continues(s[1]) && Continues(s[2]) then
      AtLeast(0x800, ((s[0] as int - 0xe0) * 64 + Six(s[1])) * 64 + Six(s[2]))
    else if |s| == 4 && 0xf0 <= s[0] as int < 0xf8 && Continues(s[1]) && Continues(s[2]) && Continues(s[3]) then
      AtLeast(0x1_0000, (((s[0] as int - 0xf0) * 64 + Six(s[1])) * 64 + Six(s[2])) * 64 + Six(s[3]))
    else None
  }

  predicate Continues(c: char) {
    0x80 <= c as int < 0xc0
  }

  function Six(c: char): int {
    c as int - 0x80
  }

  function AtLeast(low: nat, n: int): Option<nat> {
    if n >= low then Some(n) else None
  }

  /** `codePointToUTF8` writes the UTF-8 of every code point. */
  lemma Utf8Exact(cp: nat)
    requires cp <= 0x10_ffff
    ensures Utf8Value(Utf8(cp)) == Some(cp)
  {
    SixBits(cp);
  }

  /** A code point in groups of six bits. */
  lemma SixBits(cp: nat)
    requires cp <= 0x10_ffff
    ensures cp == cp / 64 * 64 + cp % 64
    ensures cp / 64 == cp / 4096 * 64 + cp / 64 % 64
    ensures cp / 4096 == cp / 262144 * 64 + cp / 4096 % 64
    ensures cp <= 0x7ff ==> cp / 64 % 32 == cp / 64
    ensures cp <= 0xffff ==> cp / 4096 % 16 == cp / 4096
    ensures cp / 262144 % 8 == cp / 262144
  {
  }

  /** A hexadecimal digit, in either case. */
  predicate IsHexDigit(c: char, d: nat)
    requires d < 16
  {
    c == "0123456789ABCDEF"[d] || c == "0123456789abcdef"[d]
  }

  lemma HexDigitValue(c: char, d: nat)
    requires d < 16 && IsHexDigit(c, d)
    ensures HexValue(c) == Some(d)
  {
  }

  /** Four hexadecimal digits, each in either case, that make a number. */
  predicate Spells(t: string, n: nat) {
    && |t| == 4 && n < 0x1_0000
    && IsHexDigit(t[0], n / 4096) && IsHexDigit(t[1], n / 256 % 16)
    && IsHexDigit(t[2], n / 16 % 16) && IsHexDigit(t[3], n % 16)
  }

  lemma SpelledExact(t: string, n: nat, rest: string)
    requires Spells(t, n)
    ensures HexFour(t + rest) == Some(n) && (t + rest)[4..] == rest
  {
    hide IsHexDigit, HexValue;
    var b := t + rest;
    assert b[0] == t[0] && b[1] == t[1] && b[2] == t[2] && b[3] == t[3];
    HexDigitValue(t[0], n / 4096);
    HexDigitValue(t[1], n / 256 % 16);
    HexDigitValue(t[2], n / 16 % 16);
    HexDigitValue(t[3], n % 16);
    FourDigits(n);
  }

  lemma FourDigits(n: nat)
    ensures n / 16 == n / 256 * 16 + n / 16 % 16 && n / 256 == n / 4096 * 16 + n / 256 % 16
  {
    TwoDigits(n);
    ThreeDigits(n);
    assert n / 16 == n / 16 / 16 * 16 + n / 16 % 16;
    assert n / 256 == n / 256 / 16 * 16 + n / 256 % 16;
  }

  lemma TwoDigits(n: nat)
    ensures n / 16 / 16 == n / 256
  {
  }

  lemma ThreeDigits(n: nat)
    ensures n / 256 / 16 == n / 4096
  {
  }

  /** An escape below the surrogates, or above them, is read as the UTF-8 of its code point. */
  lemma SingleEscape(cp: nat, t: string, rest: string)
    requires Spells(t, cp) && !(0xd800 <= cp <= 0xdbff)
    ensures DecodeBody("\\u" + t + rest) == Prefix(Utf8(cp), DecodeBody(rest))
  {
    hide Spells, HexFour;
    var b := "\\u" + t + rest;
    assert b[0] == '\\' && b[1] == 'u' && b[2..] == t + rest;
    SpelledExact(t, cp, rest);
    assert b[2..][4..] == rest;
  }

  lemma PairCodePoint(high: nat, h: string, low: nat, l: string, rest: string)
    requires 0xd800 <= high < 0xdc00 <= low < 0xe000 && Spells(h, high) && Spells(l, low)
    ensures CodePoint(h + "\\u" + l + rest) == Some((0x1_0000 + (high - 0xd800) * 0x400 + (low - 0xdc00), rest))
  {
    hide HexFour, Spells;
    var tail := "\\u" + l + rest;
    var c := h + "\\u" + l + rest;
    assert c == h + tail;
    SpelledExact(h, high, tail);
    assert c[4] == '\\' && c[5] == 'u' && c[6..] == l + rest;
    SpelledExact(l, low, rest);
    assert c[10..] == c[6..][4..];
  }

  /** A pair of surrogate escapes is read as the UTF-8 of the code point the pair stands for
      (section 7 of RFC 8259). */
  lemma SurrogatePair(cp: nat, h: string, l: string, rest: string)
    requires 0x1_0000 <= cp <= 0x10_ffff
    requires Spells(h, 0xd800 + (cp - 0x1_0000) / 0x400) && Spells(l, 0xdc00 + (cp - 0x1_0000) % 0x400)
    ensures DecodeBody("\\u" + h + "\\u" + l + rest) == Prefix(Utf8(cp), DecodeBody(rest))
  {
    hide Spells, CodePoint, Utf8, Unescape;
    var high, low := 0xd800 + (cp - 0x1_0000) / 0x400, 0xdc00 + (cp - 0x1_0000) % 0x400;
    var b := "\\u" + h + "\\u" + l + rest;
    PairCodePoint(high, h, low, l, rest);
    assert b[0] == '\\' && b[1] == 'u' && b[2..] == h + "\\u" + l + rest;
  }
}
