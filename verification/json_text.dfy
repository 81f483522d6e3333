/** The two pieces of JSON text the outbound messages are built from:
    quoted strings and unsigned decimal integers, written the way serde_json
    writes them, together with readers that undo them. */
module JsonText {
  import opened Common

  const HexDigits: string := "0123456789abcdef"

  /** What serde_json writes for one character inside a string: the quote and
      the backslash are escaped, the five control characters with a short
      escape get it, every other control character below U+0020 becomes
      `\u00xx` in lower-case hex, and everything else is written as is. */
  function EscapeChar(c: char): (r: string)
    ensures |r| >= 1 && r[0] != '"'
    ensures r == [c] <==> Plain(c)
  {
    var n := c as int;
    if c == '"' then ['\\', '"']
    else if c == '\\' then ['\\', '\\']
    else if n == 0x08 then ['\\', 'b']
    else if n == 0x09 then ['\\', 't']
    else if n == 0x0A then ['\\', 'n']
    else if n == 0x0C then ['\\', 'f']
    else if n == 0x0D then ['\\', 'r']
    else if n < 0x20 then ['\\', 'u', '0', '0', HexDigits[n / 16], HexDigits[n % 16]]
    else [c]
  }

  /** A character that serde_json copies into a string unchanged. */
  predicate Plain(c: char) {
    c != '"' && c != '\\' && c as int >= 0x20
  }

  /** The body of a JSON string literal for `s`, without the quotes. */
  function Escape(s: string): (r: string)
    ensures |r| >= |s|
  {
    if |s| == 0 then [] else EscapeChar(s[0]) + Escape(s[1..])
  }

  /** `s` as a JSON string literal. */
  function Quote(s: string): string {
    ['"'] + Escape(s) + ['"']
  }

  lemma {:induction false} EscapePlain(s: string)
    requires forall i :: 0 <= i < |s| ==> Plain(s[i])
    ensures Escape(s) == s
    decreases |s|
  {
    if |s| > 0 {
      EscapePlain(s[1..]);
      assert [s[0]] + s[1..] == s;
    }
  }

  function HexValue(c: char): Option<nat> {
    if '0' <= c <= '9' then Some(c as int - '0' as int)
    else if 'a' <= c <= 'f' then Some(c as int - 'a' as int + 10)
    else if 'A' <= c <= 'F' then Some(c as int - 'A' as int + 10)
    else None
  }

  /** The value of four hex digits, as in a `\uXXXX` escape. */
  function Hex4(h: string): (r: Option<nat>)
    requires |h| == 4
    ensures r.Some? ==> r.value < 0x10000
  {
    match (HexValue(h[0]), HexValue(h[1]), HexValue(h[2]), HexValue(h[3]))
    case (Some(a), Some(b), Some(c), Some(d)) =>
      if a < 16 && b < 16 && c < 16 && d < 16 then Some(((a * 16 + b) * 16 + c) * 16 + d) else None
    case _ => None
  }

  /** The character a two-character escape `\e` stands for. */
  function ShortEscape(e: char): Option<char> {
    if e == '"' then Some('"')
    else if e == '\\' then Some('\\')
    else if e == '/' then Some('/')
    else if e == 'b' then Some(0x08 as char)
    else if e == 't' then Some(0x09 as char)
    else if e == 'n' then Some(0x0A as char)
    else if e == 'f' then Some(0x0C as char)
    else if e == 'r' then Some(0x0D as char)
    else None
  }

  function Prepend(c: char, r: Option<(string, string)>): Option<(string, string)> {
    match r
    case None => None
    case Some((s, rest)) => Some(([c] + s, rest))
  }

  /** Decodes the escape sequence at the start of `t` (which begins with a
      backslash): the character it stands for and its length. Surrogate
      escapes are refused; the encoder never writes them. */
  function ReadEscape(t: string): (r: Option<(char, nat)>)
    requires |t| > 0 && t[0] == '\\'
    ensures r.Some? ==> 2 <= r.value.1 <= |t|
  {
    if |t| < 2 then None
    else if t[1] == 'u' then
      if |t| < 6 then None
      else match Hex4(t[2..6])
        case None => None
        case Some(code) => if 0xD800 <= code < 0xE000 then None else Some((code as char, 6))
    else match ShortEscape(t[1])
      case None => None
      case Some(c) => Some((c, 2))
  }

  /** Reads the body of a string literal whose opening quote has been
      consumed: the decoded text and what follows the closing quote. */
  function ReadStringBody(t: string): (r: Option<(string, string)>)
    ensures r.Some? ==> |r.value.1| < |t|
    decreases |t|
  {
    if |t| == 0 then None
    else if t[0] == '"' then Some(([], t[1..]))
    else if t[0] == '\\' then
      match ReadEscape(t)
      case None => None
      case Some((c, n)) => Prepend(c, ReadStringBody(t[n..]))
    else if t[0] as int < 0x20 then None
    else Prepend(t[0], ReadStringBody(t[1..]))
  }

  lemma HexDigitsValue(k: nat)
    requires k < 16
    ensures HexValue(HexDigits[k]) == Some(k)
  {
  }

  /** Reading one escaped character back yields that character and leaves the
      text after it to be read. */
  lemma ReadEscapeChar(c: char, tail: string, t: string)
    requires t == EscapeChar(c) + tail
    ensures ReadStringBody(t) == Prepend(c, ReadStringBody(tail))
  {
    var n := c as int;
    if c == '"' || c == '\\' || n == 0x08 || n == 0x09 || n == 0x0A || n == 0x0C || n == 0x0D {
      assert ReadEscape(t) == Some((c, 2));
      assert t[2..] == tail;
    } else if n < 0x20 {
      HexDigitsValue(n / 16);
      HexDigitsValue(n % 16);
      assert t[2..6] == ['0', '0', HexDigits[n / 16], HexDigits[n % 16]];
      assert Hex4(t[2..6]) == Some(n);
      assert ReadEscape(t) == Some((c, 6));
      assert t[6..] == tail;
    } else {
      assert t[1..] == tail;
    }
  }

  /** The string reader undoes the escaping: the body of `Quote(s)` reads back
      as exactly `s`, and reading stops right after the closing quote. */
  lemma ReadEscaped(s: string, rest: string)
    ensures ReadStringBody(Escape(s) + ['"'] + rest) == Some((s, rest))
  {
    ReadEscapedAt(s, rest, Escape(s) + ['"'] + rest);
  }

  /** `ReadEscaped` for a text given as a whole. */
  lemma {:induction false} ReadEscapedAt(s: string, rest: string, t: string)
    requires t == Escape(s) + ['"'] + rest
    ensures ReadStringBody(t) == Some((s, rest))
    decreases |s|
  {
    if |s| == 0 {
      assert t == ['"'] + rest;
    } else {
      var tail := EscapeFirst(s, rest, t);
      ReadEscapeChar(s[0], tail, t);
      ReadEscapedAt(s[1..], rest, tail);
      assert Prepend(s[0], Some((s[1..], rest))) == Some((s, rest)) by {
        assert [s[0]] + s[1..] == s;
      }
    }
  }

  /** An escaped text split after its first escaped character. */
  lemma EscapeFirst(s: string, rest: string, t: string) returns (tail: string)
    requires |s| > 0 && t == Escape(s) + ['"'] + rest
    ensures tail == Escape(s[1..]) + ['"'] + rest && t == EscapeChar(s[0]) + tail
  {
    var head := EscapeChar(s[0]);
    var others := Escape(s[1..]);
    tail := others + ['"'] + rest;
    assert Escape(s) == head + others;
    ConcatAssoc(head, others, ['"'], rest);
  }

  lemma ConcatAssoc(a: string, b: string, c: string, d: string)
    ensures a + b + c + d == a + (b + c + d)
  {
  }

  /** A quoted literal read from its opening quote. */
  lemma ReadQuoted(s: string, rest: string)
    ensures (Quote(s) + rest)[0] == '"'
    ensures ReadStringBody((Quote(s) + rest)[1..]) == Some((s, rest))
  {
    assert (Quote(s) + rest)[1..] == Escape(s) + ['"'] + rest;
    ReadEscaped(s, rest);
  }

  predicate IsDigit(c: char) {
    '0' <= c <= '9'
  }

  predicate AllDigits(s: string) {
    forall i :: 0 <= i < |s| ==> IsDigit(s[i])
  }

  function DigitChar(d: nat): (c: char)
    requires d < 10
    ensures IsDigit(c) && c as int - '0' as int == d
  {
    ('0' as int + d) as char
  }

  /** The number a run of decimal digits denotes, most significant first. */
  function DigitsValue(s: string): nat
    requires AllDigits(s)
  {
    if |s| == 0 then 0 else DigitsValue(s[..|s| - 1]) * 10 + (s[|s| - 1] as int - '0' as int)
  }

  /** How `itoa` (used by serde_json) writes an unsigned integer: shortest
      decimal form, so a leading zero only for zero itself. */
  function Decimal(n: nat): (r: string)
    ensures |r| > 0 && AllDigits(r)
    ensures DigitsValue(r) == n
    ensures r[0] == '0' <==> n == 0
    ensures |r| == 1 <==> n < 10
  {
    if n < 10 then [DigitChar(n)]
    else
      var r := Decimal(n / 10) + [DigitChar(n % 10)];
      assert r[..|r| - 1] == Decimal(n / 10);
      r
  }

  /** Length of the run of digits at the start of `t`. */
  function DigitRun(t: string): (k: nat)
    ensures k <= |t| && AllDigits(t[..k])
    ensures k < |t| ==> !IsDigit(t[k])
  {
    if |t| == 0 || !IsDigit(t[0]) then 0
    else
      var k := 1 + DigitRun(t[1..]);
      assert t[..k] == [t[0]] + t[1..][..k - 1];
      k
  }

  /** Reads an unsigned decimal number: its value and the text after it. */
  function ReadNumber(t: string): (r: Option<(nat, string)>)
    ensures r.Some? ==> |r.value.1| < |t|
  {
    var k := DigitRun(t);
    if k == 0 then None else Some((DigitsValue(t[..k]), t[k..]))
  }

  lemma {:induction false} DigitRunOver(s: string, rest: string)
    requires AllDigits(s)
    requires |rest| == 0 || !IsDigit(rest[0])
    ensures DigitRun(s + rest) == |s|
    decreases |s|
  {
    if |s| > 0 {
      assert (s + rest)[1..] == s[1..] + rest;
      DigitRunOver(s[1..], rest);
    } else {
      assert s + rest == rest;
    }
  }

  /** The number reader undoes `Decimal` when the number is not followed by
      another digit (in a message it is followed by a comma). */
  lemma DecimalRoundTrip(n: nat, rest: string)
    requires |rest| == 0 || !IsDigit(rest[0])
    ensures ReadNumber(Decimal(n) + rest) == Some((n, rest))
  {
    var d := Decimal(n);
    DigitRunOver(d, rest);
    assert (d + rest)[..|d|] == d;
    assert (d + rest)[|d|..] == rest;
  }
}
