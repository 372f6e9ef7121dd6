/** Standard base64 with padding (crates/refyard-http/src/assets.rs, `base64_standard`),
    and the decoder of section 4 of RFC 4648. */
module Base64 {
  import opened Wrappers
  import opened Bytes

  type sextet = n: int | 0 <= n < 64

  /** A-Z, a-z, 0-9, then `+` and `/`. */
  function Letter(s: sextet): char {
    if s < 26 then 'A' + s as char
    else if s < 52 then 'a' + (s - 26) as char
    else if s < 62 then '0' + (s - 52) as char
    else if s == 62 then '+' else '/'
  }

  function ValueOf(c: char): Option<sextet> {
    if 'A' <= c <= 'Z' then Some((c - 'A') as int)
    else if 'a' <= c <= 'z' then Some((c - 'a') as int + 26)
    else if '0' <= c <= '9' then Some((c - '0') as int + 52)
    else if c == '+' then Some(62) else if c == '/' then Some(63) else None
  }

  lemma LetterInverse(s: sextet)
    ensures ValueOf(Letter(s)) == Some(s) && Letter(s) != '='
  {}

  /** The 24 bits of a chunk, missing bytes read as zero. */
  function Group(chunk: seq<byte>): (number: nat)
    requires 1 <= |chunk| <= 3
  {
    Bits(chunk[0], if |chunk| > 1 then chunk[1] else 0, if |chunk| > 2 then chunk[2] else 0)
  }

  function Bits(x: nat, y: nat, z: nat): nat { x * 65536 + y * 256 + z }

  function EncodedChunk(chunk: seq<byte>): string
    requires 1 <= |chunk| <= 3
  {
    var number := Group(chunk);
    [Letter(number / 262144 % 64), Letter(number / 4096 % 64),
     if |chunk| > 1 then Letter(number / 64 % 64) else '=',
     if |chunk| > 2 then Letter(number % 64) else '=']
  }

  function FirstChunk(input: seq<byte>): seq<byte> { if |input| < 3 then input else input[..3] }

  function Encoded(input: seq<byte>): (text: string)
    decreases |input|
  {
    if input == [] then "" else EncodedChunk(FirstChunk(input)) + Encoded(input[|FirstChunk(input)|..])
  }

  /** `base64_standard`. */
  method Base64Standard(input: seq<byte>) returns (output: string)
    ensures output == Encoded(input)
  {
    hide EncodedChunk, Encoded, FirstChunk;
    output := "";
    var offset := 0;
    NothingEncoded();
    assert input[0..] == input;
    while offset < |input|
      invariant 0 <= offset <= |input|
      invariant output + Encoded(input[offset..]) == Encoded(input)
      decreases |input| - offset
    {
      var chunk := FirstChunk(input[offset..]);
      EncodedFrom(input, offset);
      assert output + (EncodedChunk(chunk) + Encoded(input[offset + |chunk|..]))
             == (output + EncodedChunk(chunk)) + Encoded(input[offset + |chunk|..]);
      output := output + EncodedChunk(chunk);
      offset := offset + |chunk|;
    }
    assert input[offset..] == [];
  }

  lemma NothingEncoded()
    ensures Encoded([]) == ""
  {}

  /** What is left to encode begins with the next chunk. */
  lemma EncodedFrom(input: seq<byte>, offset: nat)
    requires offset < |input|
    ensures var chunk := FirstChunk(input[offset..]);
            && 1 <= |chunk| <= 3 && offset + |chunk| <= |input|
            && Encoded(input[offset..]) == EncodedChunk(chunk) + Encoded(input[offset + |chunk|..])
  {
    hide EncodedChunk;
    var chunk := FirstChunk(input[offset..]);
    assert input[offset..][|chunk|..] == input[offset + |chunk|..];
  }

  // ---------------------------------------------------------------- decoding

  /** One quantum of four characters; padding is allowed only where `last` says the input ends. */
  function DecodedQuantum(q: string, last: bool): Option<seq<byte>>
    requires |q| == 4
  {
    var a, b := ValueOf(q[0]), ValueOf(q[1]);
    if a.None? || b.None? then None
    else if q[2] == '=' then
      if last && q[3] == '=' && b.value % 16 == 0 then Some([a.value * 4 + b.value / 16]) else None
    else
      var c := ValueOf(q[2]);
      if c.None? then None
      else if q[3] == '=' then
        if last && c.value % 4 == 0 then Some([a.value * 4 + b.value / 16, b.value % 16 * 16 + c.value / 4]) else None
      else
        var d := ValueOf(q[3]);
        if d.None? then None
        else Some([a.value * 4 + b.value / 16, b.value % 16 * 16 + c.value / 4, c.value % 4 * 64 + d.value])
  }

  function Decoded(text: string): Option<seq<byte>>
    decreases |text|
  {
    if text == "" then Some([])
    else if |text| < 4 then None
    else
      var head := DecodedQuantum(text[..4], |text| == 4);
      var tail := Decoded(text[4..]);
      if head.None? || tail.None? then None else Some(head.value + tail.value)
  }

  lemma FourDigits(a: nat, b: nat, c: nat, d: nat)
    requires a < 64 && b < 64 && c < 64 && d < 64
    ensures var n := a * 262144 + b * 4096 + c * 64 + d;
            n / 262144 % 64 == a && n / 4096 % 64 == b && n / 64 % 64 == c && n % 64 == d
  {
    var n := a * 262144 + b * 4096 + c * 64 + d;
    assert n / 262144 == a;
    assert n / 4096 == a * 64 + b;
    assert n / 64 == a * 4096 + b * 64 + c;
  }

  lemma SplitThree(x: nat, y: nat, z: nat)
    requires x < 256 && y < 256 && z < 256
    ensures var n := Bits(x, y, z);
            && n / 262144 % 64 == x / 4 && n / 4096 % 64 == x % 4 * 16 + y / 16
            && n / 64 % 64 == y % 16 * 4 + z / 64 && n % 64 == z % 64
  {
    FourDigits(x / 4, x % 4 * 16 + y / 16, y % 16 * 4 + z / 64, z % 64);
  }

  lemma Recombine(x: nat, y: nat, z: nat)
    requires x < 256 && y < 256 && z < 256
    ensures var (a, b, c, d) := (x / 4, x % 4 * 16 + y / 16, y % 16 * 4 + z / 64, z % 64);
            && a < 64 && b < 64 && c < 64 && d < 64
            && a * 4 + b / 16 == x && b % 16 * 16 + c / 4 == y && c % 4 * 64 + d == z
            && (z == 0 ==> c % 4 == 0) && (y == 0 ==> b % 16 == 0)
  {}

  lemma ChunkRoundTrip(chunk: seq<byte>, last: bool)
    requires 1 <= |chunk| <= 3 && (|chunk| < 3 ==> last)
    ensures DecodedQuantum(EncodedChunk(chunk), last) == Some(chunk)
  {
    hide Bits, Letter, DecodedQuantum;
    var x, y, z: nat := chunk[0], if |chunk| > 1 then chunk[1] else 0, if |chunk| > 2 then chunk[2] else 0;
    SplitThree(x, y, z);
    Recombine(x, y, z);
    Quantum(x / 4, x % 4 * 16 + y / 16, y % 16 * 4 + z / 64, z % 64, chunk, last);
  }

  lemma Quantum(a: sextet, b: sextet, c: sextet, d: sextet, chunk: seq<byte>, last: bool)
    requires 1 <= |chunk| <= 3 && (|chunk| < 3 ==> last)
    requires chunk[0] == a * 4 + b / 16
    requires if |chunk| > 1 then chunk[1] == b % 16 * 16 + c / 4 else b % 16 == 0
    requires if |chunk| > 2 then chunk[2] == c % 4 * 64 + d else c % 4 == 0
    ensures DecodedQuantum([Letter(a), Letter(b), if |chunk| > 1 then Letter(c) else '=', if |chunk| > 2 then Letter(d) else '='], last)
            == Some(chunk)
  {
    LetterInverse(a);
    LetterInverse(b);
    LetterInverse(c);
    LetterInverse(d);
    hide Letter, ValueOf;
    if |chunk| == 1 {
      assert chunk == [chunk[0]];
    } else if |chunk| == 2 {
      assert chunk == [chunk[0], chunk[1]];
    } else {
      assert chunk == [chunk[0], chunk[1], chunk[2]];
    }
  }

  /** The decoder inverts the encoder on every input, both padding cases included, and the
      text is four characters per three bytes begun. */
  lemma {:induction false} RoundTrip(input: seq<byte>)
    ensures Decoded(Encoded(input)) == Some(input)
    ensures |Encoded(input)| == 4 * ((|input| + 2) / 3)
    decreases |input|
  {
    hide EncodedChunk, DecodedQuantum;
    if input != [] {
      var chunk := FirstChunk(input);
      var rest := input[|chunk|..];
      assert (|input| + 2) / 3 == (|rest| + 2) / 3 + 1 && chunk + rest == input;
      RoundTrip(rest);
      ChunkLength(chunk);
      ChunkRoundTrip(chunk, rest == []);
      DecodedInSteps(EncodedChunk(chunk), Encoded(rest));
    }
  }

  lemma DecodedInSteps(q: string, text: string)
    requires |q| == 4
    ensures Decoded(q + text)
            == (if DecodedQuantum(q, text == "").None? || Decoded(text).None? then None
                else Some(DecodedQuantum(q, text == "").value + Decoded(text).value))
  {
    hide DecodedQuantum;
    var whole := q + text;
    assert whole[..4] == q && whole[4..] == text && whole != "";
  }

  lemma ChunkLength(chunk: seq<byte>)
    requires 1 <= |chunk| <= 3
    ensures |EncodedChunk(chunk)| == 4
  {}

  /** Different inputs have different text. */
  lemma EncodingIsInjective(a: seq<byte>, b: seq<byte>)
    ensures Encoded(a) == Encoded(b) <==> a == b
  {
    RoundTrip(a);
    RoundTrip(b);
  }
}
