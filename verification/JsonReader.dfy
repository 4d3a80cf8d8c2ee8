/** `Json::Reader` as it runs: one cursor moved through the document by loops (json_reader.cpp). Every
    method is proved to do what its function in JsonScan, JsonDecode or JsonRead says. */
module JsonReader {
  import opened Common
  import opened JsonValue
  import opened JsonScan
  import opened JsonDecode
  import opened JsonRead

  class Reader {
    const scan: Scanf
    var document: string
    var current: nat

    constructor (scan: Scanf)
      ensures Valid() && this.scan == scan
    {
      this.scan := scan;
      document, current := "", 0;
    }

    /** The cursor never leaves the document. */
    predicate Valid()
      reads this
    {
      current <= |document|
    }

    /** `Reader::parse`. */
    method Parse(doc: string) returns (value: Option<Value>)
      modifies this
      ensures Valid() && document == doc && value == JsonRead.Parse(doc, scan)
    {
      document, current := doc, 0;
      value := ReadValue();
      var token := NextToken();
    }

    method GetNextChar() returns (c: char)
      requires Valid()
      modifies `current
      ensures Valid() && c == Peek(document, old(current)) && current == After(document, old(current))
    {
      if current == |document| {
        return '\0';
      }
      c := document[current];
      current := current + 1;
    }

    method SkipSpaces()
      requires Valid()
      modifies `current
      ensures Valid() && current == JsonScan.SkipSpaces(document, old(current))
    {
      while current != |document|
        invariant Valid()
        invariant JsonScan.SkipSpaces(document, current) == JsonScan.SkipSpaces(document, old(current))
        decreases |document| - current
      {
        var c := document[current];
        if c == ' ' || c == '\t' || c == '\r' || c == '\n' {
          current := current + 1;
        } else {
          break;
        }
      }
    }

    /** `match`, comparing from the last character to the first. */
    method MatchWord(pattern: string) returns (ok: bool)
      requires Valid()
      modifies `current
      ensures Valid() && (current, ok) == Match(document, old(current), pattern)
    {
      if |document| - current < |pattern| {
        return false;
      }
      var index := |pattern|;
      while index > 0
        invariant 0 <= index <= |pattern| && current == old(current) && current + |pattern| <= |document|
        invariant forall i | index <= i < |pattern| :: document[current + i] == pattern[i]
      {
        index := index - 1;
        if document[current + index] != pattern[index] {
          assert document[current..current + |pattern|][index] != pattern[index];
          return false;
        }
      }
      assert document[current..current + |pattern|] == pattern;
      current := current + |pattern|;
      ok := true;
    }

    method ReadNumber()
      requires Valid()
      modifies `current
      ensures Valid() && current == NumberEnd(document, old(current))
    {
      while current != |document|
        invariant Valid() && NumberEnd(document, current) == NumberEnd(document, old(current))
        decreases |document| - current
      {
        if !IsNumberChar(document[current]) {
          break;
        }
        current := current + 1;
      }
    }

    method ReadString() returns (ok: bool)
      requires Valid()
      modifies `current
      ensures Valid() && (current, ok) == StringEnd(document, old(current))
    {
      var c := '\0';
      while current != |document|
        invariant Valid() && c != '"'
        invariant StringEnd(document, current) == StringEnd(document, old(current))
        decreases |document| - current
      {
        c := GetNextChar();
        if c == '\\' {
          var skipped := GetNextChar();
        } else if c == '"' {
          break;
        }
      }
      ok := c == '"';
    }

    method ReadCStyleComment() returns (ok: bool)
      requires Valid()
      modifies `current
      ensures Valid()
      ensures var stop := CStyleStop(document, old(current));
        current == After(document, stop) && ok == (Peek(document, stop) == '/')
    {
      while current != |document|
        invariant Valid() && CStyleStop(document, current) == CStyleStop(document, old(current))
        decreases |document| - current
      {
        var c := GetNextChar();
        if c == '*' && Peek(document, current) == '/' {
          break;
        }
      }
      var c := GetNextChar();
      ok := c == '/';
    }

    method ReadCppStyleComment()
      requires Valid()
      modifies `current
      ensures Valid() && current == CppStyleStop(document, old(current))
    {
      while current != |document|
        invariant Valid() && CppStyleStop(document, current) == CppStyleStop(document, old(current))
        decreases |document| - current
      {
        var c := GetNextChar();
        if c == '\r' || c == '\n' {
          break;
        }
      }
    }

    method ReadComment() returns (ok: bool)
      requires Valid()
      modifies `current
      ensures Valid() && (current, ok) == CommentEnd(document, old(current))
    {
      var c := GetNextChar();
      if c == '*' {
        ok := ReadCStyleComment();
      } else if c == '/' {
        ReadCppStyleComment();
        ok := true;
      } else {
        ok := false;
      }
    }

    method ReadToken() returns (token: Token)
      requires Valid()
      modifies `current
      ensures Valid() && token == JsonScan.ReadToken(document, old(current)) && current == token.end
    {
      SkipSpaces();
      var start := current;
      var c := GetNextChar();
      var ok, kind := true, ErrorToken;
      if c == '{' {
        kind := ObjectBegin;
      } else if c == '}' {
        kind := ObjectEnd;
      } else if c == '[' {
        kind := ArrayBegin;
      } else if c == ']' {
        kind := ArrayEnd;
      } else if c == '"' {
        kind := StringToken;
        ok := ReadString();
      } else if c == '/' {
        kind := CommentToken;
        ok := ReadComment();
      } else if '0' <= c <= '9' || c == '-' {
        kind := NumberToken;
        ReadNumber();
      } else if c == 't' {
        kind := TrueToken;
        ok := MatchWord("rue");
      } else if c == 'f' {
        kind := FalseToken;
        ok := MatchWord("alse");
      } else if c == 'n' {
        kind := NullToken;
        ok := MatchWord("ull");
      } else if c == ',' {
        kind := ArraySeparator;
      } else if c == ':' {
        kind := MemberSeparator;
      } else if c == '\0' {
        kind := EndOfStream;
      } else {
        ok := false;
      }
      if !ok {
        kind := ErrorToken;
      }
      token := Token(kind, start, current);
    }

    /** `skipCommentTokens`. */
    method NextToken() returns (token: Token)
      requires Valid()
      modifies `current
      ensures Valid() && token == JsonScan.NextToken(document, old(current)) && current == token.end
    {
      token := ReadToken();
      while token.kind == CommentToken
        invariant Valid() && token.start <= token.end == current
        invariant JsonScan.NextToken(document, old(current)) ==
          if token.kind == CommentToken then JsonScan.NextToken(document, current) else token
        decreases |document| - current, token.kind == CommentToken
      {
        token := ReadToken();
      }
    }

    /** `recoverFromError`. */
    method RecoverFromError(until: Kind)
      requires Valid()
      modifies `current
      ensures Valid() && current == Recover(document, old(current), until)
    {
      while true
        invariant Valid() && Recover(document, current, until) == Recover(document, old(current), until)
        decreases |document| - current
      {
        var skip := ReadToken();
        if skip.kind == until || skip.kind == EndOfStream {
          break;
        }
      }
    }

    // ----- Decoding -------------------------------------------------------------------------

    method DecodeNumber(token: Token) returns (v: Option<Value>)
      requires Valid() && token.start < token.end <= |document|
      ensures v == JsonDecode.DecodeNumber(TextOf(document, token), scan)
    {
      hide LooksDouble, Accumulate;
      ghost var tok := TextOf(document, token);
      var isDouble := InspectNumber(token);
      if isDouble {
        v := DecodeDouble(document[token.start..token.end], scan);
        return;
      }
      var current := token.start;
      var isNegative := document[current] == '-';
      if isNegative {
        current := current + 1;
      }
      assert document[current..token.end] == if isNegative then tok[1..] else tok;
      var threshold := (if isNegative then Unsigned(-MIN_INT) else MAX_UINT) / 10;
      var r := AccumulateDigits(current, token.end, threshold);
      match r {
        case NotDigits => v := None;
        case TooLarge => v := DecodeDouble(document[token.start..token.end], scan);
        case Number(value) =>
          if isNegative {
            v := Some(Int(0 - value));
          } else if value <= MAX_INT {
            v := Some(Int(value));
          } else {
            v := Some(UInt(value));
          }
      }
    }

    /** The first loop of `decodeNumber`. */
    method InspectNumber(token: Token) returns (isDouble: bool)
      requires Valid() && token.start < token.end <= |document|
      ensures isDouble == LooksDouble(TextOf(document, token))
    {
      ghost var tok := TextOf(document, token);
      isDouble := false;
      for inspect := token.start to token.end
        invariant isDouble <==>
          exists i | 0 <= i < inspect - token.start :: tok[i] in ".eE+" || (tok[i] == '-' && i != 0)
      {
        var c := document[inspect];
        assert c == tok[inspect - token.start];
        isDouble := isDouble || c in ".eE+" || (c == '-' && inspect != token.start);
      }
    }

    lemma FitsWord(n: int)
      requires 0 <= n <= MAX_UINT
      ensures Unsigned(n) == n
    {
    }

    /** The second: the value is kept in an `unsigned int`, and the threshold keeps it from wrapping. */
    method AccumulateDigits(start: nat, end: nat, threshold: nat) returns (r: Digits)
      requires start <= end <= |document| && 0 < 10 * threshold <= MAX_UINT
      ensures r == Accumulate(document[start..end], 0, threshold)
    {
      hide Unsigned;
      var current := start;
      var value: nat := 0;
      while current < end
        invariant start <= current <= end && value < 10 * threshold
        invariant Accumulate(document[current..end], value, threshold) == Accumulate(document[start..end], 0, threshold)
      {
        var c := document[current];
        assert document[current..end][0] == c && document[current..end][1..] == document[current + 1..end];
        current := current + 1;
        if c < '0' || c > '9' {
          return NotDigits;
        }
        if value >= threshold {
          return TooLarge;
        }
        FitsWord(c as int - '0' as int);
        FitsWord(value * 10 + (c as int - '0' as int));
        value := Unsigned(value * 10 + Unsigned(c as int - '0' as int));
      }
      r := Number(value);
    }

    /** `decodeUnicodeEscapeSequence` of four characters, before `end`. */
    method DecodeHexFour(p: nat, end: nat) returns (unicode: Option<nat>)
      requires p <= end <= |document|
      ensures unicode == HexFour(document[p..end])
    {
      hide HexValue, Spelled;
      if end - p < 4 {
        return None;
      }
      ghost var b := document[p..end];
      var n: nat := 0;
      SpelledMore(b, 0);
      for index := 0 to 4
        invariant forall i | 0 <= i < index :: HexValue(b[i]).Some?
        invariant n == Spelled(b, index)
      {
        var c := document[p + index];
        assert c == b[index];
        HexDigitIs(c);
        SpelledMore(b, index);
        n := n * 16;
        if '0' <= c <= '9' {
          n := n + (c as int - '0' as int);
        } else if 'a' <= c <= 'f' {
          n := n + (c as int - 'a' as int + 10);
        } else if 'A' <= c <= 'F' {
          n := n + (c as int - 'A' as int + 10);
        } else {
          return None;
        }
      }
      SpelledFour(b);
      unicode := Some(n);
    }

    lemma HexDigitIs(c: char)
      ensures HexValue(c) ==
        if '0' <= c <= '9' then Some(c as int - '0' as int)
        else if 'a' <= c <= 'f' then Some(c as int - 'a' as int + 10)
        else if 'A' <= c <= 'F' then Some(c as int - 'A' as int + 10)
        else None
    {
    }

    /** `decodeUnicodeCodePoint`: the code point, and the cursor after it. */
    method DecodeUnicodeCodePoint(p: nat, end: nat) returns (unicode: Option<nat>, q: nat)
      requires p <= end <= |document|
      ensures unicode.Some? <==> CodePoint(document[p..end]).Some?
      ensures unicode.Some? ==> p < q <= end && CodePoint(document[p..end]) == Some((unicode.value, document[q..end]))
    {
      ghost var b := document[p..end];
      q := p;
      unicode := DecodeHexFour(p, end);
      if unicode.None? {
        return;
      }
      q := p + 4;
      assert b[4..] == document[q..end];
      if 0xd800 <= unicode.value <= 0xdbff {
        if end - q < 6 || document[q] != '\\' || document[q + 1] != 'u' {
          return None, q;
        }
        assert b[6..] == document[q + 2..end] && b[10..] == document[q + 6..end];
        var surrogatePair := DecodeHexFour(q + 2, end);
        if surrogatePair.None? {
          return None, q;
        }
        unicode := Some(0x1_0000 + unicode.value % 0x400 * 0x400 + surrogatePair.value % 0x400);
        q := q + 6;
      }
    }

    /** The scanner has left a quote at either end of the token. */
    method DecodeString(token: Token) returns (r: Option<string>)
      requires Valid() && token.start + 2 <= token.end <= |document|
      ensures r == JsonDecode.DecodeString(TextOf(document, token))
    {
      hide DecodeBody, Utf8, Unescape;
      var decoded: string := [];
      var p, end := token.start + 1, token.end - 1;
      ghost var whole := DecodeBody(document[p..end]);
      BetweenQuotes(document, token);
      PrefixNone(whole);
      while p != end
        invariant token.start < p <= end
        invariant Prefix(decoded, DecodeBody(document[p..end])) == whole
        decreases end - p
      {
        var c := document[p];
        ghost var b := document[p..end];
        BodyStep(b);
        p := p + 1;
        assert b[1..] == document[p..end];
        if c == '"' {
          assert decoded + [] == decoded;
          return Some(decoded);
        } else if c == '\\' {
          if p == end {
            return None;
          }
          var escape := document[p];
          p := p + 1;
          assert b[1] == escape && b[2..] == document[p..end];
          if escape == 'u' {
            var unicode, q := DecodeUnicodeCodePoint(p, end);
            if unicode.None? {
              return None;
            }
            PrefixTwice(decoded, Utf8(unicode.value), DecodeBody(document[q..end]));
            decoded := decoded + Utf8(unicode.value);
            p := q;
          } else {
            var plain := Unescape(escape);
            if plain.None? {
              return None;
            }
            PrefixTwice(decoded, [plain.value], DecodeBody(document[p..end]));
            decoded := decoded + [plain.value];
          }
        } else {
          PrefixTwice(decoded, [c], DecodeBody(document[p..end]));
          decoded := decoded + [c];
        }
      }
      BodyStep(document[p..end]);
      assert document[p..end] == [] && decoded + [] == decoded;
      r := Some(decoded);
    }

    /** One turn of the loop. */
    lemma BodyStep(b: string)
      ensures b == [] || b[0] == '"' ==> DecodeBody(b) == Some([])
      ensures b != [] && b[0] != '"' && b[0] != '\\' ==> DecodeBody(b) == Prefix([b[0]], DecodeBody(b[1..]))
      ensures b != [] && b[0] == '\\' && |b| == 1 ==> DecodeBody(b) == None
      ensures b != [] && b[0] == '\\' && |b| > 1 && b[1] == 'u' ==>
        var u := CodePoint(b[2..]);
        DecodeBody(b) == if u.None? then None else Prefix(Utf8(u.value.0), DecodeBody(u.value.1))
      ensures b != [] && b[0] == '\\' && |b| > 1 && b[1] != 'u' ==>
        var c := Unescape(b[1]);
        DecodeBody(b) == if c.None? then None else Prefix([c.value], DecodeBody(b[2..]))
    {
      hide CodePoint, Utf8, Unescape, Prefix;
    }

    // ----- Values ---------------------------------------------------------------------------

    /** `readValue`. The value goes to the caller instead of through the stack `nodes_`. */
    method ReadValue() returns (v: Option<Value>)
      requires Valid()
      modifies `current
      ensures Valid() && Read(current, v) == JsonRead.ReadValue(document, old(current), scan)
      decreases |document| - current, 2
    {
      var token := NextToken();
      match token.kind {
        case ObjectBegin =>
          v := ReadObject();
        case ArrayBegin =>
          v := ReadArray();
        case NumberToken =>
          v := DecodeNumber(token);
        case StringToken =>
          var s := DecodeString(token);
          v := if s.Some? then Some(Str(CStr(s.value))) else None;
        case TrueToken =>
          v := Some(Bool(true));
        case FalseToken =>
          v := Some(Bool(false));
        case NullToken =>
          v := Some(Null);
        case _ =>
          v := None;
      }
    }

    method ReadArray() returns (v: Option<Value>)
      requires Valid()
      modifies `current
      ensures Valid() && Read(current, v) == JsonRead.ReadArray(document, old(current), scan)
      decreases |document| - current, 4
    {
      SkipSpaces();
      if Peek(document, current) == ']' {
        var endArray := ReadToken();
        return Some(Arr([]));
      }
      ghost var start := current;
      var items: seq<Value> := [];
      while true
        invariant Valid() && start <= current
        invariant ReadItems(document, current, items, scan) == ReadItems(document, start, [], scan)
        decreases |document| - current
      {
        var item := ReadValue();
        if item.None? {
          RecoverFromError(ArrayEnd);
          return None;
        }
        items := items + [item.value];
        var token := NextToken();
        if token.kind == ArrayEnd {
          break;
        }
      }
      v := Some(Arr(Listed(items)));
    }

    method ReadObject() returns (v: Option<Value>)
      requires Valid()
      modifies `current
      ensures Valid() && Read(current, v) == ReadMembers(document, old(current), true, [], scan)
      decreases |document| - current, 4
    {
      var name: string := [];
      var members: seq<Member> := [];
      while true
        invariant Valid() && old(current) <= current
        invariant ReadMembers(document, current, name == [], members, scan)
          == ReadMembers(document, old(current), true, [], scan)
        decreases |document| - current
      {
        var tokenName := NextToken();
        if tokenName.kind == ObjectEnd && name == [] {
          return Some(Obj(members));
        }
        if tokenName.kind != StringToken {
          break;
        }
        var decoded := DecodeString(tokenName);
        if decoded.None? {
          break;
        }
        name := decoded.value;
        var colon := ReadToken();
        if colon.kind != MemberSeparator {
          break;
        }
        var value := ReadValue();
        if value.None? {
          break;
        }
        members := Put(members, CStr(name), value.value);
        var comma := ReadToken();
        if comma.kind != ObjectEnd && comma.kind != ArraySeparator && comma.kind != CommentToken {
          break;
        }
        if comma.kind == CommentToken {
          comma := NextToken();
        }
        if comma.kind == ObjectEnd {
          return Some(Obj(members));
        }
      }
      RecoverFromError(ObjectEnd);
      v := None;
    }
  }

  /** What `unsigned int` keeps of a number. */
  function Unsigned(n: int): nat {
    n % 0x1_0000_0000
  }

  /** The number the first n characters spell if they are hexadecimal digits. */
  function Spelled(b: string, n: nat): nat
    requires n <= |b|
  {
    if n == 0 then 0
    else Spelled(b, n - 1) * 16 + if HexValue(b[n - 1]).Some? then HexValue(b[n - 1]).value else 0
  }

  lemma SpelledMore(b: string, n: nat)
    requires n < |b|
    ensures Spelled(b, n + 1) == Spelled(b, n) * 16 + if HexValue(b[n]).Some? then HexValue(b[n]).value else 0
    ensures n == 0 ==> Spelled(b, n) == 0
    ensures HexValue(b[n]) == None && n < 4 ==> HexFour(b) == None
  {
  }

  lemma SpelledFour(b: string)
    requires |b| >= 4 && forall i | 0 <= i < 4 :: HexValue(b[i]).Some?
    ensures HexFour(b) == Some(Spelled(b, 4))
  {
    hide HexValue, Spelled;
    SpelledMore(b, 0);
    SpelledMore(b, 1);
    SpelledMore(b, 2);
    SpelledMore(b, 3);
  }

  lemma BetweenQuotes(doc: string, t: Token)
    requires t.start + 2 <= t.end <= |doc|
    ensures TextOf(doc, t)[1..|TextOf(doc, t)| - 1] == doc[t.start + 1..t.end - 1]
  {
    var s := doc[t.start..t.end];
    assert |s| == t.end - t.start;
  }

  lemma PrefixNone(r: Option<string>)
    ensures Prefix([], r) == r
  {
    if r.Some? {
      assert [] + r.value == r.value;
    }
  }

  lemma PrefixTwice(a: string, b: string, r: Option<string>)
    ensures Prefix(a, Prefix(b, r)) == Prefix(a + b, r)
  {
    if r.Some? {
      assert a + (b + r.value) == a + b + r.value;
    }
  }
}
