/** The JSON printer of `ffi/format.c` and, as its independent reference, a parser written from RFC 8259: strings
    (section 7), arrays (section 5) and objects (section 4). Text is a string with one character per byte. */
module Json {
  // ---- Printing ----------------------------------------------------------------------------------------------

  function HexDigit(n: nat): char
    requires n < 16
  {
    "0123456789abcdef"[n]
  }

  predicate Control(c: char) { c as int < 0x20 }

  function EscapeChar(c: char): (r: string)
    ensures 1 <= |r| <= 6 && forall i :: 0 <= i < |r| ==> !Control(r[i])
  {
    if c == '"' then "\\\""
    else if c == '\\' then "\\\\"
    else if c as int == 8 then "\\b"
    else if c as int == 12 then "\\f"
    else if c as int == 10 then "\\n"
    else if c as int == 13 then "\\r"
    else if c as int == 9 then "\\t"
    else if Control(c) then ['\\', 'u', '0', '0', HexDigit(c as int / 16), HexDigit(c as int % 16)]
    else [c]
  }

  function Escape(s: string): (r: string)
    ensures |s| <= |r| <= 6 * |s|
  {
    if s == "" then "" else Escape(s[..|s| - 1]) + EscapeChar(s[|s| - 1])
  }

  ghost predicate OneLine(t: string) { forall i :: 0 <= i < |t| ==> !Control(t[i]) }

  /** Escaped text holds no raw control byte, so an event that carries it stays on one line. */
  lemma {:induction false} EscapeIsOneLine(s: string)
    ensures OneLine(Escape(s))
  {
    if s != "" { EscapeIsOneLine(s[..|s| - 1]); }
  }

  lemma Assoc(a: string, b: string, c: string)
    ensures a + (b + c) == (a + b) + c
  {
  }

  lemma {:induction false} EscapeCons(c: char, s: string)
    ensures Escape([c] + s) == EscapeChar(c) + Escape(s)
  {
    if s == "" {
      assert [c][..0] == "" && [c] + s == [c];
    } else {
      assert ([c] + s)[..|s|] == [c] + s[..|s| - 1];
      EscapeCons(c, s[..|s| - 1]);
      Assoc(EscapeChar(c), Escape(s[..|s| - 1]), EscapeChar(s[|s| - 1]));
    }
  }

  /** `hg_json_escape(dst, cap, src)`: the escaped text and a NUL when they fit, an empty string and -1 when they do
      not. */
  method JsonEscape(dst: array<char>, cap: nat, src: string) returns (n: int)
    requires cap <= dst.Length
    modifies dst
    ensures n >= 0 <==> |Escape(src)| + 1 <= cap
    ensures n >= 0 ==> n == |Escape(src)| && dst[..n] == Escape(src) && dst[n] == '\0'
    ensures n < 0 ==> n == -1 && (cap > 0 ==> dst[0] == '\0')
    ensures forall i :: cap <= i < dst.Length ==> dst[i] == old(dst[i])
  {
    if cap == 0 {
      return -1;
    }
    var o := 0;
    for i := 0 to |src|
      invariant o == |Escape(src[..i])| && o + 1 <= cap && dst[..o] == Escape(src[..i])
      invariant forall k :: cap <= k < dst.Length ==> dst[k] == old(dst[k])
    {
      assert src[..i + 1][..i] == src[..i];
      EscapeGrows(src, i + 1);
      var rep := EscapeChar(src[i]);
      if o + |rep| + 1 > cap {
        dst[0] := '\0';
        return -1;
      }
      Copy(dst, o, rep);
      o := o + |rep|;
    }
    assert src[..|src|] == src;
    dst[o] := '\0';
    n := o;
  }

  /** `memcpy(dst + o, src, strlen(src))`. */
  method Copy(dst: array<char>, o: nat, src: string)
    requires o + |src| <= dst.Length
    modifies dst
    ensures dst[..o + |src|] == old(dst[..o]) + src
    ensures forall k :: o + |src| <= k < dst.Length ==> dst[k] == old(dst[k])
  {
    forall k | 0 <= k < |src| { dst[o + k] := src[k]; }
  }

  lemma {:induction false} EscapeGrows(s: string, i: nat)
    requires i <= |s|
    ensures |Escape(s[..i])| <= |Escape(s)|
    decreases |s|
  {
    if i < |s| {
      assert s[..|s| - 1][..i] == s[..i];
      EscapeGrows(s[..|s| - 1], i);
    } else {
      assert s[..i] == s;
    }
  }

  // ---- Parsing -----------------------------------------------------------------------------------------------

  datatype Value = Str(s: string) | Arr(elements: seq<Value>) | Obj(members: seq<(string, Value)>)

  datatype Parsed<T> = Bad | Good(v: T, rest: string)

  function HexValue(c: char): (r: int)
    ensures -1 <= r < 16
  {
    if '0' <= c <= '9' then c as int - '0' as int
    else if 'a' <= c <= 'f' then c as int - 'a' as int + 10
    else if 'A' <= c <= 'F' then c as int - 'A' as int + 10
    else -1
  }

  /** A code point below U+10000 in UTF-8. */
  function Utf8(code: nat): string
    requires code < 0x10000
  {
    if code < 0x80 then [code as char]
    else if code < 0x800 then [(0xC0 + code / 64) as char, (0x80 + code % 64) as char]
    else [(0xE0 + code / 4096) as char, (0x80 + code / 64 % 64) as char, (0x80 + code % 64) as char]
  }

  /** What follows a backslash: the text it stands for, and how many characters it took. Surrogates are refused. */
  function Unescape(t: string): Parsed<string> {
    if t == "" then Bad
    else match t[0]
      case '"' => Good("\"", t[1..])
      case '\\' => Good("\\", t[1..])
      case '/' => Good("/", t[1..])
      case 'b' => Good([8 as char], t[1..])
      case 'f' => Good([12 as char], t[1..])
      case 'n' => Good([10 as char], t[1..])
      case 'r' => Good([13 as char], t[1..])
      case 't' => Good([9 as char], t[1..])
      case 'u' =>
        if |t| < 5 then Bad
        else
          var h := (HexValue(t[1]), HexValue(t[2]), HexValue(t[3]), HexValue(t[4]));
          if h.0 < 0 || h.1 < 0 || h.2 < 0 || h.3 < 0 then Bad
          else
            var code := ((h.0 * 16 + h.1) * 16 + h.2) * 16 + h.3;
            if 0xD800 <= code < 0xE000 then Bad else Good(Utf8(code), t[5..])
      case _ => Bad
  }

  /** The rest of a string after its opening quote. */
  function ParseChars(t: string): (r: Parsed<string>)
    ensures r.Good? ==> |r.rest| < |t|
    decreases |t|
  {
    if t == "" || Control(t[0]) then Bad
    else if t[0] == '"' then Good("", t[1..])
    else if t[0] == '\\' then
      match Unescape(t[1..])
      case Bad => Bad
      case Good(c, rest) => Prepend(c, ParseChars(rest))
    else Prepend([t[0]], ParseChars(t[1..]))
  }

  function Prepend(c: string, p: Parsed<string>): Parsed<string> {
    match p
    case Bad => Bad
    case Good(s, rest) => Good(c + s, rest)
  }

  predicate Blank(c: char) { c == ' ' || c == '\t' || c == '\n' || c == '\r' }

  predicate StartsWith(t: string, c: char) { t != "" && t[0] == c }

  function Wrap<A>(p: Parsed<A>, f: A -> Value): Parsed<Value> {
    match p
    case Bad => Bad
    case Good(v, rest) => Good(f(v), rest)
  }

  function SkipWs(t: string): (r: string)
    ensures |r| <= |t|
  {
    if t != "" && Blank(t[0]) then SkipWs(t[1..]) else t
  }

  function ParseValue(t: string): (r: Parsed<Value>)
    ensures r.Good? ==> |r.rest| < |t|
    decreases |t|, 0
  {
    var u := SkipWs(t);
    if u == "" then Bad
    else if u[0] == '"' then Wrap(ParseChars(u[1..]), s => Str(s))
    else if u[0] == '[' then
      if StartsWith(SkipWs(u[1..]), ']') then Good(Arr([]), SkipWs(u[1..])[1..])
      else Wrap(ParseElements(u[1..]), vs => Arr(vs))
    else if u[0] == '{' then
      if StartsWith(SkipWs(u[1..]), '}') then Good(Obj([]), SkipWs(u[1..])[1..])
      else Wrap(ParseMembers(u[1..]), ms => Obj(ms))
    else Bad
  }

  function ParseElements(t: string): (r: Parsed<seq<Value>>)
    ensures r.Good? ==> |r.rest| < |t|
    decreases |t|, 1
  {
    match ParseValue(t)
    case Bad => Bad
    case Good(v, rest) =>
      var w := SkipWs(rest);
      if w == "" then Bad
      else if w[0] == ']' then Good([v], w[1..])
      else if w[0] == ',' then
        match ParseElements(w[1..])
        case Bad => Bad
        case Good(vs, end) => Good([v] + vs, end)
      else Bad
  }

  /** A key, a colon and a value. */
  function ParseMember(t: string): (r: Parsed<(string, Value)>)
    ensures r.Good? ==> |r.rest| < |t|
    decreases |t|, 1
  {
    var u := SkipWs(t);
    if u == "" || u[0] != '"' then Bad
    else match ParseChars(u[1..])
      case Bad => Bad
      case Good(key, afterKey) =>
        var colon := SkipWs(afterKey);
        if colon == "" || colon[0] != ':' then Bad
        else match ParseValue(colon[1..])
          case Bad => Bad
          case Good(v, rest) => Good((key, v), rest)
  }

  function ParseMembers(t: string): (r: Parsed<seq<(string, Value)>>)
    ensures r.Good? ==> |r.rest| < |t|
    decreases |t|, 2
  {
    match ParseMember(t)
    case Bad => Bad
    case Good(m, rest) =>
      var w := SkipWs(rest);
      if w == "" then Bad
      else if w[0] == '}' then Good([m], w[1..])
      else if w[0] == ',' then
        match ParseMembers(w[1..])
        case Bad => Bad
        case Good(ms, end) => Good([m] + ms, end)
      else Bad
  }

  // ---- One step of the parser --------------------------------------------------------------------------------

  lemma ReadStr(t: string, s: string, rest: string)
    requires t != "" && t[0] == '"' && ParseChars(t[1..]) == Good(s, rest)
    ensures ParseValue(t) == Good(Str(s), rest)
  {
  }

  lemma ReadObj(t: string, ms: seq<(string, Value)>, rest: string)
    requires |t| > 1 && t[0] == '{' && t[1] == '"' && ParseMembers(t[1..]) == Good(ms, rest)
    ensures ParseValue(t) == Good(Obj(ms), rest)
  {
    assert SkipWs(t) == t && SkipWs(t[1..]) == t[1..];
    assert !StartsWith(t[1..], '}');
  }

  lemma ReadArr(t: string, vs: seq<Value>, rest: string)
    requires |t| > 1 && t[0] == '[' && t[1] == '{' && ParseElements(t[1..]) == Good(vs, rest)
    ensures ParseValue(t) == Good(Arr(vs), rest)
  {
    assert SkipWs(t[1..]) == t[1..];
  }

  lemma ReadLastElement(t: string, v: Value, rest: string)
    requires ParseValue(t) == Good(v, "]" + rest)
    ensures ParseElements(t) == Good([v], rest)
  {
    assert ("]" + rest)[1..] == rest;
  }

  lemma ReadElement(t: string, v: Value, rest: string, vs: seq<Value>, end: string)
    requires ParseValue(t) == Good(v, "," + rest) && ParseElements(rest) == Good(vs, end)
    ensures ParseElements(t) == Good([v] + vs, end)
  {
    assert ("," + rest)[1..] == rest;
  }

  lemma ReadPair(t: string, key: string, u: string, v: Value, rest: string)
    requires t != "" && t[0] == '"' && ParseChars(t[1..]) == Good(key, ":" + u) && ParseValue(u) == Good(v, rest)
    ensures ParseMember(t) == Good((key, v), rest)
  {
    assert (":" + u)[1..] == u;
  }

  lemma ReadLastMember(t: string, m: (string, Value), rest: string)
    requires ParseMember(t) == Good(m, "}" + rest)
    ensures ParseMembers(t) == Good([m], rest)
  {
    assert ("}" + rest)[1..] == rest;
  }

  lemma ReadMember(t: string, m: (string, Value), rest: string, ms: seq<(string, Value)>, end: string)
    requires ParseMember(t) == Good(m, "," + rest) && ParseMembers(rest) == Good(ms, end)
    ensures ParseMembers(t) == Good([m] + ms, end)
  {
    assert ("," + rest)[1..] == rest;
  }

  // ---- The two agree -----------------------------------------------------------------------------------------

  lemma ParseShortEscape(e: char, c: char, t: string)
    requires Unescape([e] + t) == Good([c], t)
    ensures ParseChars(['\\', e] + t) == Prepend([c], ParseChars(t))
  {
    assert (['\\', e] + t)[1..] == [e] + t;
  }

  lemma HexValueOf(n: nat)
    requires n < 16
    ensures HexValue(HexDigit(n)) == n
  {
  }

  lemma UnescapeHex(c: char, t: string)
    requires Control(c)
    ensures Unescape(['u', '0', '0', HexDigit(c as int / 16), HexDigit(c as int % 16)] + t) == Good([c], t)
  {
    var h, l := HexDigit(c as int / 16), HexDigit(c as int % 16);
    var u := ['u', '0', '0', h, l] + t;
    HexValueOf(c as int / 16);
    HexValueOf(c as int % 16);
    assert u[5..] == t;
  }

  lemma ParseHexEscape(c: char, t: string)
    requires Control(c)
    ensures var h, l := HexDigit(c as int / 16), HexDigit(c as int % 16);
            ParseChars(['\\', 'u', '0', '0', h, l] + t) == Prepend([c], ParseChars(t))
  {
    var h, l := HexDigit(c as int / 16), HexDigit(c as int % 16);
    var u := ['u', '0', '0', h, l] + t;
    UnescapeHex(c, t);
    assert (['\\', 'u', '0', '0', h, l] + t)[1..] == u;
  }

  lemma ParseEscapedChar(c: char, t: string)
    ensures ParseChars(EscapeChar(c) + t) == Prepend([c], ParseChars(t))
  {
    var short := map['"' := '"', '\\' := '\\', 8 as char := 'b', 12 as char := 'f', 10 as char := 'n',
                     13 as char := 'r', 9 as char := 't'];
    if c in short {
      assert EscapeChar(c) == ['\\', short[c]];
      assert ([short[c]] + t)[1..] == t;
      ParseShortEscape(short[c], c, t);
    } else if Control(c) {
      ParseHexEscape(c, t);
    } else {
      assert ([c] + t)[1..] == t;
    }
  }

  /** A parser reads an escaped string back as the string, whatever its bytes and whatever follows the quote. */
  lemma {:induction false} UnescapeUndoesEscape(s: string, rest: string)
    ensures ParseChars(Escape(s) + "\"" + rest) == Good(s, rest)
  {
    if s == "" {
      assert "\"" + rest == "" + "\"" + rest;
      assert ("\"" + rest)[1..] == rest;
    } else {
      var c, tail := s[0], s[1..];
      assert s == [c] + tail;
      EscapeCons(c, tail);
      Regroup(Escape(s), EscapeChar(c), Escape(tail), rest);
      ParseEscapedChar(c, Escape(tail) + "\"" + rest);
      UnescapeUndoesEscape(tail, rest);
    }
  }

  lemma Regroup(whole: string, head: string, tail: string, rest: string)
    requires whole == head + tail
    ensures whole + "\"" + rest == head + (tail + "\"" + rest)
  {
    Assoc(head, tail, "\"");
    Assoc(head, tail + "\"", rest);
  }
}
