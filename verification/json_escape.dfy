// Escaping of JSON string contents by the basic JSON serializer: the
// validation of escape sequences that the input already holds, and the
// character-by-character rewrite that escapes control characters, quotes
// and (when escaping is off) backslashes.

module JsonEscape {
  import opened Values

  /** Errors raised while serializing an XML representation of JSON. */
  datatype JsonError =
    | BadEscape               // an invalid escape sequence in the input
    | InvalidNamespace        // an element outside the functions namespace
    | InvalidAttribute        // an attribute that is not allowed
    | InvalidAttributeValue   // an `escaped`/`escaped-key` value that is not a boolean
    | NoKey                   // a map member without a key
    | DuplicateKey            // a key that occurred before in the same map
    | KeyNotAllowed           // a key outside a map
    | NoChildren              // a `null` element with content
    | NoValue                 // a `boolean`/`number` element without text
    | InvalidValue            // text that is not a boolean or a finite number
    | NoChildElements         // a scalar element with element children
    | NoTextNodes             // an array or map with non-whitespace text
    | InvalidElement          // an element with an unknown local name

  /** The characters that may follow a backslash (section 7 of RFC 8259). */
  const ESCAPES: string := "\\/bfnrtu\""
  /** Upper-case hexadecimal digits, used for `\u00XX` escapes. */
  const HEX: string := "0123456789ABCDEF"

  predicate IsHexDigit(c: char) {
    '0' <= c <= '9' || 'A' <= c <= 'F' || 'a' <= c <= 'f'
  }

  function HexVal(c: char): (r: int)
    requires IsHexDigit(c)
    ensures 0 <= r < 16
  {
    if c <= '9' then c as int - '0' as int
    else if c <= 'F' then c as int - 'A' as int + 10
    else c as int - 'a' as int + 10
  }

  /** The code points written as escape sequences: C0 and C1 controls and DEL. */
  predicate IsControl(c: char) {
    c as int < 32 || (127 <= c as int < 160)
  }

  /**
   * The input is accepted by the escape validation: every backslash opens
   * an escape sequence of RFC 8259, and `\u` is followed by four hex digits.
   */
  predicate ValidEscapes(s: string)
    decreases |s|
  {
    if s == [] then true
    else if s[0] != '\\' then ValidEscapes(s[1..])
    else
      |s| >= 2 && s[1] in ESCAPES &&
      if s[1] == 'u' then |s| >= 6 && HexQuad(s[2..6]) && ValidEscapes(s[6..])
      else ValidEscapes(s[2..])
  }

  /** What one input character becomes, given the flags of the rewrite. */
  function EmitChar(c: char, escape: bool, bs: bool): string {
    if IsControl(c) then
      if c as int == 8 then "\\b"
      else if c as int == 12 then "\\f"
      else if c as int == 10 then "\\n"
      else if c as int == 13 then "\\r"
      else if c as int == 9 then "\\t"
      else "\\u00" + [HEX[c as int / 16], HEX[c as int % 16]]
    else if (c == '"' && !bs) || (!escape && c == '\\') then ['\\', c]
    else [c]
  }

  /**
   * Whether the previous character was a backslash that starts an escape
   * sequence of the input (only tracked while escaping is on).
   */
  function NextBs(c: char, escape: bool, bs: bool): bool {
    escape && c == '\\' && !bs
  }

  /** The rewrite of `s`, starting in backslash state `bs`. */
  function Rewrite(s: string, escape: bool, bs: bool): string
    decreases |s|
  {
    if s == [] then []
    else EmitChar(s[0], escape, bs) + Rewrite(s[1..], escape, NextBs(s[0], escape, bs))
  }

  lemma RewriteStep(s: string, v: nat, escape: bool, bs: bool)
    requires v < |s|
    ensures Rewrite(s[v..], escape, bs) == EmitChar(s[v], escape, bs) + Rewrite(s[v + 1..], escape, NextBs(s[v], escape, bs))
  {
    assert s[v..][1..] == s[v + 1..];
  }

  /** The rewrite loop's invariant survives one more input character. */
  lemma RewriteAdvance(s: string, v: nat, escape: bool, bs: bool, tb: string)
    requires v < |s|
    requires tb + Rewrite(s[v..], escape, bs) == Rewrite(s, escape, false)
    ensures (tb + EmitChar(s[v], escape, bs)) + Rewrite(s[v + 1..], escape, NextBs(s[v], escape, bs)) == Rewrite(s, escape, false)
  {
    RewriteStep(s, v, escape, bs);
    ConcatAssoc(tb, EmitChar(s[v], escape, bs), Rewrite(s[v + 1..], escape, NextBs(s[v], escape, bs)));
  }

  lemma RewriteCons(c: char, r: string, escape: bool, bs: bool)
    ensures Rewrite([c] + r, escape, bs) == EmitChar(c, escape, bs) + Rewrite(r, escape, NextBs(c, escape, bs))
  {
    assert ([c] + r)[0] == c && ([c] + r)[1..] == r;
  }

  lemma ConcatAssoc(a: string, b: string, c: string)
    ensures (a + b) + c == a + (b + c)
  {
  }

  /** The outcome of escaping `s`. */
  function EscapeSpec(s: string, escape: bool): Result<string, JsonError> {
    if escape && '\\' in s && !ValidEscapes(s) then Err(BadEscape)
    else Ok(Rewrite(s, escape, false))
  }

  /** `ValidEscapes` on a suffix, unfolded once. */
  lemma ValidEscapesAt(s: string, k: nat)
    requires k < |s|
    ensures ValidEscapes(s[k..]) ==
      if s[k] != '\\' then ValidEscapes(s[k + 1..])
      else k + 1 < |s| && s[k + 1] in ESCAPES &&
           if s[k + 1] == 'u' then k + 6 <= |s| && HexQuad(s[k + 2..k + 6]) && ValidEscapes(s[k + 6..])
           else ValidEscapes(s[k + 2..])
  {
    var t := s[k..];
    assert t[0] == s[k];
    assert t[1..] == s[k + 1..];
    if k + 1 < |s| {
      assert t[1] == s[k + 1];
      assert t[2..] == s[k + 2..];
      if k + 6 <= |s| {
        assert t[2..6] == s[k + 2..k + 6];
        assert t[6..] == s[k + 6..];
      }
    }
  }

  /** The validation loop over the input. */
  method CheckEscapes(value: string) returns (ok: bool)
    ensures ok == ValidEscapes(value)
  {
    var p := 0;
    while p < |value|
      invariant 0 <= p <= |value|
      invariant ValidEscapes(value) == ValidEscapes(value[p..])
      decreases |value| - p
    {
      var start := p;
      ValidEscapesAt(value, start);
      var c := value[p];
      p := p + 1;
      if c == '\\' {
        if p >= |value| { return false; }
        c := value[p];
        p := p + 1;
        if c !in ESCAPES { return false; }
        if c == 'u' {
          var hex := HexDigits(value, p);
          if !hex { return false; }
          p := p + 4;
        }
      }
    }
    return true;
  }

  /** The four-digit loop after `\u`, reading from position `p`. */
  method HexDigits(value: string, p: nat) returns (ok: bool)
    requires p <= |value|
    ensures ok <==> p + 4 <= |value| && HexQuad(value[p..p + 4])
  {
    var q := p;
    var i := 0;
    while i < 4
      invariant 0 <= i <= 4
      invariant q == p + i <= |value|
      invariant forall k :: p <= k < q ==> IsHexDigit(value[k])
    {
      if q >= |value| { return false; }
      var c := value[q];
      q := q + 1;
      if !IsHexDigit(c) {
        assert p + 4 > |value| || !IsHexDigit(value[p..p + 4][i]);
        return false;
      }
      i := i + 1;
    }
    return true;
  }

  /** Escapes a string value: validation first, then the rewrite loop. */
  method Escape(value: string, escape: bool) returns (r: Result<string, JsonError>)
    ensures r == EscapeSpec(value, escape)
  {
    if escape && '\\' in value {
      var ok := CheckEscapes(value);
      if !ok { return Err(BadEscape); }
    }
    var tb := RewriteLoop(value, escape);
    return Ok(tb);
  }

  /** The escape sequence written for a control character. */
  method ControlEscape(cp: char, ghost escape: bool, ghost bs: bool) returns (t: string)
    requires IsControl(cp)
    ensures t == EmitChar(cp, escape, bs)
  {
    t := ['\\'];
    if cp as int == 8 { t := t + ['b']; }
    else if cp as int == 12 { t := t + ['f']; }
    else if cp as int == 10 { t := t + ['n']; }
    else if cp as int == 13 { t := t + ['r']; }
    else if cp as int == 9 { t := t + ['t']; }
    else { t := t + ['u', '0', '0', HEX[cp as int / 16], HEX[cp as int % 16]]; }
  }

  /**
   * A character that is not a control character: a quote is escaped unless
   * it follows an escaping backslash, and so is a backslash when escaping is
   * off; in both cases the backslash flag is set so that the written
   * backslash does not count as an escape.
   */
  method QuoteChar(cp: char, escape: bool, bs: bool) returns (t: string, bs1: bool)
    requires !IsControl(cp)
    ensures t == EmitChar(cp, escape, bs)
    ensures (!bs1 && cp == '\\') == NextBs(cp, escape, bs)
  {
    bs1 := bs;
    t := [];
    if (cp == '"' && !bs) || (!escape && cp == '\\') {
      bs1 := true;
      t := ['\\'];
    }
    t := t + [cp];
  }

  /** The rewrite loop of the escape function. */
  method RewriteLoop(value: string, escape: bool) returns (tb: string)
    ensures tb == Rewrite(value, escape, false)
  {
    tb := [];
    var bs := false;
    var v := 0;
    assert value[v..] == value;
    while v < |value|
      invariant 0 <= v <= |value|
      invariant tb + Rewrite(value[v..], escape, bs) == Rewrite(value, escape, false)
      decreases |value| - v
    {
      var cp := value[v];
      ghost var bs0 := bs;
      var emitted;
      if cp as int < 32 || (127 <= cp as int < 160) {
        emitted := ControlEscape(cp, escape, bs);
      } else {
        emitted, bs := QuoteChar(cp, escape, bs);
      }
      bs := !bs && cp == '\\';
      RewriteAdvance(value, v, escape, bs0, tb);
      tb := tb + emitted;
      v := v + 1;
    }
    assert value[v..] == [];
  }

  // ---------------------------------------------------------------------
  // Reading a string body back (section 7 of RFC 8259).

  function Codes(s: string): (r: seq<int>)
    ensures |r| == |s|
    ensures forall i :: 0 <= i < |s| ==> r[i] == s[i] as int
  {
    seq(|s|, i requires 0 <= i < |s| => s[i] as int)
  }

  function Prepend(x: int, rest: Option<seq<int>>): Option<seq<int>> {
    if rest.Some? then Some([x] + rest.value) else None
  }

  /** The code unit a two-character escape sequence `\c` stands for. */
  function SimpleEscape(c: char): Option<int> {
    if c == '"' then Some(34)
    else if c == '\\' then Some(92)
    else if c == '/' then Some(47)
    else if c == 'b' then Some(8)
    else if c == 'f' then Some(12)
    else if c == 'n' then Some(10)
    else if c == 'r' then Some(13)
    else if c == 't' then Some(9)
    else None
  }

  predicate HexQuad(t: string) {
    |t| == 4 && forall i :: 0 <= i < 4 ==> IsHexDigit(t[i])
  }

  function HexQuadVal(t: string): int
    requires HexQuad(t)
  {
    4096 * HexVal(t[0]) + 256 * HexVal(t[1]) + 16 * HexVal(t[2]) + HexVal(t[3])
  }

  /**
   * The code units a string body stands for. With `strict`, the grammar of
   * RFC 8259 applies: a raw quote or raw C0 control character is refused.
   * Without it, only the escape sequences are interpreted and every other
   * character stands for itself (the reading of input marked as escaped).
   */
  function Decode(t: string, strict: bool): Option<seq<int>>
    decreases |t|
  {
    if t == [] then Some([])
    else if t[0] == '\\' then
      if |t| < 2 then None
      else if SimpleEscape(t[1]).Some? then Prepend(SimpleEscape(t[1]).value, Decode(t[2..], strict))
      else if t[1] == 'u' && |t| >= 6 && HexQuad(t[2..6]) then
        Prepend(HexQuadVal(t[2..6]), Decode(t[6..], strict))
      else None
    else if strict && (t[0] == '"' || t[0] as int < 32) then None
    else Prepend(t[0] as int, Decode(t[1..], strict))
  }

  lemma HexDigitValue(k: nat)
    requires k < 16
    ensures IsHexDigit(HEX[k]) && HexVal(HEX[k]) == k
  {
  }

  lemma DecodeRaw(c: char, rest: string, strict: bool)
    requires c != '\\'
    requires !(strict && (c == '"' || c as int < 32))
    ensures Decode([c] + rest, strict) == Prepend(c as int, Decode(rest, strict))
  {
    assert ([c] + rest)[1..] == rest;
  }

  lemma DecodeSimple(c: char, rest: string, strict: bool)
    requires SimpleEscape(c).Some?
    ensures Decode(['\\', c] + rest, strict) == Prepend(SimpleEscape(c).value, Decode(rest, strict))
  {
    assert (['\\', c] + rest)[2..] == rest;
  }

  lemma DecodeUnicode(q: string, rest: string, strict: bool)
    requires HexQuad(q)
    ensures Decode(['\\', 'u'] + (q + rest), strict) == Prepend(HexQuadVal(q), Decode(rest, strict))
  {
    var t := ['\\', 'u'] + (q + rest);
    assert t[2..6] == q;
    assert t[6..] == rest;
  }

  /** The escape sequence of a control character decodes to that character. */
  lemma ControlDecodes(c: char, escape: bool, bs: bool, rest: string)
    requires IsControl(c)
    ensures Decode(EmitChar(c, escape, bs) + rest, true) == Prepend(c as int, Decode(rest, true))
  {
    var k := c as int;
    if k == 8 { DecodeSimple('b', rest, true); }
    else if k == 12 { DecodeSimple('f', rest, true); }
    else if k == 10 { DecodeSimple('n', rest, true); }
    else if k == 13 { DecodeSimple('r', rest, true); }
    else if k == 9 { DecodeSimple('t', rest, true); }
    else {
      HexDigitValue(k / 16);
      HexDigitValue(k % 16);
      var q := ['0', '0', HEX[k / 16], HEX[k % 16]];
      assert HexQuadVal(q) == k;
      DecodeUnicode(q, rest, true);
      assert EmitChar(c, escape, bs) + rest == ['\\', 'u'] + (q + rest);
    }
  }

  /** The escape sequence of one character decodes to that character. */
  lemma EmitCharDecodes(c: char, escape: bool, bs: bool, rest: string)
    requires !(escape && c == '\\')
    requires !(bs && c == '"')
    ensures Decode(EmitChar(c, escape, bs) + rest, true) == Prepend(c as int, Decode(rest, true))
  {
    if IsControl(c) {
      ControlDecodes(c, escape, bs, rest);
    } else if (c == '"' && !bs) || (!escape && c == '\\') {
      DecodeSimple(c, rest, true);
    } else {
      DecodeRaw(c, rest, true);
    }
  }

  /** With escaping off, the output reads back as exactly the input. */
  lemma {:induction false} RoundTripUnescaped(s: string)
    ensures Decode(Rewrite(s, false, false), true) == Some(Codes(s))
    decreases |s|
  {
    if s != [] {
      RoundTripUnescaped(s[1..]);
      EmitCharDecodes(s[0], false, false, Rewrite(s[1..], false, false));
      assert Codes(s) == [s[0] as int] + Codes(s[1..]);
    }
  }

  /** Characters that the rewrite copies unchanged and that keep `bs` off. */
  predicate Plain(c: char) {
    !IsControl(c) && c != '"' && c != '\\'
  }

  /** The characters allowed after a backslash are the two-character escapes and `u`. */
  lemma EscapeChars(c: char)
    ensures c in ESCAPES <==> SimpleEscape(c).Some? || c == 'u'
  {
    assert ESCAPES == ['\\', '/', 'b', 'f', 'n', 'r', 't', 'u', '"'];
  }

  lemma EmitPlain(c: char)
    requires Plain(c)
    ensures EmitChar(c, true, false) == [c] && !NextBs(c, true, false)
  {
  }

  /** A backslash of the input opens an escape: it is copied and so is the character after it. */
  lemma EmitEscapeOpen(c: char)
    requires SimpleEscape(c).Some? || c == 'u'
    ensures EmitChar('\\', true, false) == "\\" && NextBs('\\', true, false)
    ensures EmitChar(c, true, true) == [c] && !NextBs(c, true, true)
  {
  }

  lemma {:induction false} RewritePlain(p: string, r: string)
    requires forall i :: 0 <= i < |p| ==> Plain(p[i])
    ensures Rewrite(p + r, true, false) == p + Rewrite(r, true, false)
    decreases |p|
  {
    if p == [] {
      assert p + r == r;
    } else {
      var c, tail := p[0], p[1..];
      assert p + r == [c] + (tail + r) && p == [c] + tail;
      RewriteCons(c, tail + r, true, false);
      EmitPlain(c);
      RewritePlain(tail, r);
      ConcatAssoc([c], tail, Rewrite(r, true, false));
    }
  }

  lemma HexDigitPlain(c: char)
    requires IsHexDigit(c)
    ensures Plain(c)
  {
  }

  lemma HexQuadPlain(q: string)
    requires HexQuad(q)
    ensures forall i :: 0 <= i < |q| ==> Plain(q[i])
  {
    forall i | 0 <= i < 4
      ensures Plain(q[i])
    {
      HexDigitPlain(q[i]);
    }
  }

  /** A `\uXXXX` escape of the input is copied unchanged. */
  lemma RewriteUnicode(q: string, r: string)
    requires HexQuad(q)
    ensures Rewrite(['\\', 'u'] + (q + r), true, false) == ['\\', 'u'] + (q + Rewrite(r, true, false))
  {
    RewriteOpen('u', q + r);
    HexQuadPlain(q);
    RewritePlain(q, r);
  }

  /** One step of the round trip below: a `\uXXXX` escape of the input. */
  lemma RoundTripUnicodeStep(q: string, r: string)
    requires HexQuad(q)
    requires Decode(Rewrite(r, true, false), true) == Decode(r, false)
    ensures Decode(Rewrite(['\\', 'u'] + (q + r), true, false), true) == Decode(['\\', 'u'] + (q + r), false)
  {
    RewriteUnicode(q, r);
    DecodeUnicode(q, Rewrite(r, true, false), true);
    DecodeUnicode(q, r, false);
  }

  /** A backslash of the input and the character after it are copied unchanged. */
  lemma RewriteOpen(c: char, r: string)
    requires SimpleEscape(c).Some? || c == 'u'
    ensures Rewrite(['\\', c] + r, true, false) == ['\\', c] + Rewrite(r, true, false)
  {
    EmitEscapeOpen(c);
    assert ['\\', c] + r == ['\\'] + ([c] + r);
    RewriteCons('\\', [c] + r, true, false);
    RewriteCons(c, r, true, true);
    assert ['\\'] + ([c] + Rewrite(r, true, false)) == ['\\', c] + Rewrite(r, true, false);
  }

  /** One step of the round trip below: a two-character escape of the input. */
  lemma RoundTripSimpleStep(c: char, r: string)
    requires SimpleEscape(c).Some?
    requires Decode(Rewrite(r, true, false), true) == Decode(r, false)
    ensures Decode(Rewrite(['\\', c] + r, true, false), true) == Decode(['\\', c] + r, false)
  {
    RewriteOpen(c, r);
    DecodeSimple(c, Rewrite(r, true, false), true);
    DecodeSimple(c, r, false);
  }

  /**
   * With escaping on, input whose escape sequences are well formed is
   * rewritten into a string body of RFC 8259 that stands for the same
   * code units as the input read with its escapes.
   */
  lemma {:induction false} RoundTripEscaped(s: string)
    requires ValidEscapes(s)
    ensures Decode(Rewrite(s, true, false), true) == Decode(s, false)
    decreases |s|
  {
    if s == [] {
    } else if s[0] != '\\' {
      RoundTripEscaped(s[1..]);
      EmitCharDecodes(s[0], true, false, Rewrite(s[1..], true, false));
      DecodeRaw(s[0], s[1..], false);
      assert s == [s[0]] + s[1..];
    } else if s[1] == 'u' {
      assert HexQuad(s[2..6]);
      RoundTripEscaped(s[6..]);
      RoundTripUnicodeStep(s[2..6], s[6..]);
      assert s == ['\\', 'u'] + (s[2..6] + s[6..]);
    } else {
      EscapeChars(s[1]);
      RoundTripEscaped(s[2..]);
      RoundTripSimpleStep(s[1], s[2..]);
      assert s == ['\\', s[1]] + s[2..];
    }
  }

  /** The validation accepts exactly the input whose escapes can be read. */
  lemma {:induction false} ValidEscapesReadable(s: string)
    ensures ValidEscapes(s) <==> Decode(s, false).Some?
    decreases |s|
  {
    if s == [] {
    } else if s[0] != '\\' {
      ValidEscapesReadable(s[1..]);
    } else if |s| >= 2 {
      EscapeChars(s[1]);
      if s[1] == 'u' {
        if |s| >= 6 { ValidEscapesReadable(s[6..]); }
      } else {
        ValidEscapesReadable(s[2..]);
      }
    }
  }

  lemma {:induction false} NoBackslashValid(s: string)
    requires '\\' !in s
    ensures ValidEscapes(s)
    decreases |s|
  {
    if s != [] {
      assert s[0] in s;
      NoBackslashValid(s[1..]);
    }
  }

  /** Escaping fails exactly when it is on and the input has a bad escape. */
  lemma EscapeOutcome(s: string, escape: bool)
    ensures EscapeSpec(s, escape).Err? <==> escape && !ValidEscapes(s)
  {
    if '\\' !in s { NoBackslashValid(s); }
  }

  lemma EmitCharNoControl(c: char, escape: bool, bs: bool)
    ensures forall i :: 0 <= i < |EmitChar(c, escape, bs)| ==> !IsControl(EmitChar(c, escape, bs)[i])
  {
    if IsControl(c) && c as int !in {8, 12, 10, 13, 9} {
      var k := c as int;
      assert EmitChar(c, escape, bs) == ['\\', 'u', '0', '0', HEX[k / 16], HEX[k % 16]];
      HexDigitValue(k / 16);
      HexDigitValue(k % 16);
    }
  }

  /** The output never holds a raw control character. */
  lemma {:induction false} NoRawControl(s: string, escape: bool, bs: bool)
    ensures forall i :: 0 <= i < |Rewrite(s, escape, bs)| ==> !IsControl(Rewrite(s, escape, bs)[i])
    decreases |s|
  {
    if s != [] {
      var head := EmitChar(s[0], escape, bs);
      var tail := Rewrite(s[1..], escape, NextBs(s[0], escape, bs));
      NoRawControl(s[1..], escape, NextBs(s[0], escape, bs));
      EmitCharNoControl(s[0], escape, bs);
      assert Rewrite(s, escape, bs) == head + tail;
      forall i | 0 <= i < |head + tail|
        ensures !IsControl((head + tail)[i])
      {
        if i < |head| { assert (head + tail)[i] == head[i]; }
        else { assert (head + tail)[i] == tail[i - |head|]; }
      }
    }
  }

  /** A successful escape yields a valid string body that keeps the meaning of its input. */
  lemma EscapeSound(s: string, escape: bool)
    requires EscapeSpec(s, escape).Ok?
    ensures Decode(EscapeSpec(s, escape).value, true).Some?
    ensures !escape ==> Decode(EscapeSpec(s, escape).value, true) == Some(Codes(s))
    ensures escape ==> Decode(EscapeSpec(s, escape).value, true) == Decode(s, false)
  {
    EscapeOutcome(s, escape);
    if escape {
      RoundTripEscaped(s);
      ValidEscapesReadable(s);
    } else {
      RoundTripUnescaped(s);
    }
  }
}
