/** What XML text means once its references, line ends and white space are decoded, out of place.
    A char stands for one byte of UTF-8. */
module XmlText {
  import opened Wrappers

  /** How line ends are treated: kept, turned into '\n', or turned, like every other blank, into ' '. */
  datatype Blanks = AsIs | Eol | Wconv

  datatype Mode = Mode(blanks: Blanks, escapes: bool)

  /** The byte at position j; past the end, the NUL that ends the buffer. */
  function Peek(t: string, j: nat): char {
    if j < |t| then t[j] else '\0'
  }

  predicate IsSpace(c: char) {
    c == '\r' || c == '\n' || c == ' ' || c == '\t'
  }

  // ----- references -----

  const WORD: nat := 0x1_0000_0000

  function Byte(n: nat): char {
    (n % 256) as char
  }

  /** The UTF-8 bytes of a code; codes from 0x10000 on take four, whatever their size. */
  function Utf8(ch: nat): (r: string)
    ensures 1 <= |r| <= 4
  {
    if ch < 0x80 then [Byte(ch)]
    else if ch < 0x800 then [Byte(0xC0 + ch / 64), Byte(0x80 + ch % 64)]
    else if ch < 0x10000 then [Byte(0xE0 + ch / 4096), Byte(0x80 + ch / 64 % 64), Byte(0x80 + ch % 64)]
    else [Byte(0xF0 + ch / 0x40000 % 16), Byte(0x80 + ch / 4096 % 64), Byte(0x80 + ch / 64 % 64), Byte(0x80 + ch % 64)]
  }

  /** What a reference decodes to, if it is one, and how many bytes were looked at. */
  datatype Ref = Ref(decoded: Option<string>, next: nat)

  function Digit(c: char, base: nat): Option<nat> {
    if '0' <= c <= '9' then Some(c as int - '0' as int)
    else if base == 16 && 'a' <= c <= 'f' then Some(c as int - 'a' as int + 10)
    else if base == 16 && 'A' <= c <= 'F' then Some(c as int - 'A' as int + 10)
    else None
  }

  /** What digits are worth in either base, and that nothing else is one. */
  lemma DigitMeans(c: char, base: nat, k: nat)
    requires base == 10 || base == 16
    ensures Digit(c, base) == Some(k) <==> k < base && (c == "0123456789abcdef"[k] || c == "0123456789ABCDEF"[k])
  {}

  /** Digits up to a semicolon, in 32-bit arithmetic. */
  function Number(t: string, j: nat, base: nat, acc: nat): (r: Ref)
    ensures r.decoded.Some? ==> r.next > j && 1 <= |r.decoded.value| <= 4
    ensures r.next >= j && (j <= |t| ==> r.next <= |t|)
    decreases |t| - j
  {
    var c := Peek(t, j);
    var d := Digit(c, base);
    if d.Some? then Number(t, j + 1, base, (base * acc + d.value) % WORD)
    else if c == ';' then Ref(Some(Utf8(acc)), j + 1)
    else Ref(None, j)
  }

  /** The first position from k on where t differs from the literal. */
  function MatchEnd(t: string, lit: string, k: nat): (r: nat)
    requires k <= |lit|
    ensures k <= r <= |lit| && (k <= |t| && '\0' !in lit ==> r <= |t|)
    decreases |lit| - k
  {
    if k < |lit| && Peek(t, k) == lit[k] then MatchEnd(t, lit, k + 1) else k
  }

  function Named(t: string, lit: string, value: char): Ref
    requires |lit| > 1
  {
    var k := MatchEnd(t, lit, 2);
    Ref(if k == |lit| then Some([value]) else None, k)
  }

  /** The reference at the '&' that t begins with. */
  function Reference(t: string): Ref
    requires t != "" && t[0] == '&'
  {
    var c, d := Peek(t, 1), Peek(t, 2);
    if c == '#' then
      if d == 'x' then (if Peek(t, 3) == ';' then Ref(None, 3) else Number(t, 3, 16, 0))
      else if d == ';' then Ref(None, 2) else Number(t, 2, 10, 0)
    else if c == 'a' then
      if d == 'm' then Named(t, "&amp;", '&') else if d == 'p' then Named(t, "&apos;", '\'') else Ref(None, 2)
    else if c == 'g' then Named(t, "&gt;", '>')
    else if c == 'l' then Named(t, "&lt;", '<')
    else if c == 'q' then Named(t, "&quot;", '"')
    else Ref(None, 1)
  }

  /** A decoded reference is never longer than its source. */
  lemma ReferenceShrinks(t: string)
    requires t != "" && t[0] == '&'
    ensures var r := Reference(t);
            && 1 <= r.next <= |t|
            && (r.decoded.Some? ==> 1 <= |r.decoded.value| <= 4 <= r.next)
  {
    if Peek(t, 1) == '#' {
      if Peek(t, 2) == 'x' {
        if Peek(t, 3) != ';' { NumberNeedsDigit(t, 3, 16); }
      } else if Peek(t, 2) != ';' {
        NumberNeedsDigit(t, 2, 10);
      }
    }
  }

  lemma NumberNeedsDigit(t: string, j: nat, base: nat)
    requires Peek(t, j) != ';' && j <= |t|
    ensures Number(t, j, base, 0).decoded.Some? ==> Number(t, j, base, 0).next >= j + 2
  {}

  // ----- decoding -----

  /** What the next piece of input turns into, and its length. */
  datatype Move = Move(out: string, next: nat)

  function LineEnd(t: string): nat
    requires t != ""
  {
    if t[0] == '\r' && Peek(t, 1) == '\n' then 2 else 1
  }

  function Step(t: string, m: Mode): (r: Move)
    requires t != ""
    ensures 1 <= r.next <= |t| && |r.out| <= r.next
  {
    if m.blanks == Wconv && IsSpace(t[0]) then Move(" ", LineEnd(t))
    else if m.blanks == Eol && t[0] == '\r' then Move("\n", LineEnd(t))
    else if m.escapes && t[0] == '&' then
      ReferenceShrinks(t);
      var r := Reference(t);
      Move(if r.decoded.Some? then r.decoded.value else t[..r.next], r.next)
    else Move([t[0]], 1)
  }

  /** The decoded text up to the first stop byte or NUL, and where that is. */
  datatype Decoded = Decoded(text: string, end: nat)

  function Decode(t: string, stop: char, m: Mode): (r: Decoded)
    ensures |r.text| <= r.end <= |t| && (Peek(t, r.end) == stop || Peek(t, r.end) == '\0')
    decreases |t|
  {
    if Peek(t, 0) == '\0' || Peek(t, 0) == stop then Decoded("", 0) else
      var v := Step(t, m);
      var r := Decode(t[v.next..], stop, m);
      PeekSuffix(t, v.next, r.end);
      Decoded(v.out + r.text, v.next + r.end)
  }

  lemma PeekSuffix(t: string, n: nat, j: nat)
    requires n <= |t|
    ensures Peek(t[n..], j) == Peek(t, n + j)
  {}

  function TrimEnd(s: string): string {
    if s != "" && IsSpace(s[|s| - 1]) then TrimEnd(s[..|s| - 1]) else s
  }
}
