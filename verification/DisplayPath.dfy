/** Path bytes, their printable text, and the way back (crates/refyard-host/src/paths.rs).

    Text is UTF-8, so it is modelled as the bytes it is made of. */
module DisplayPath {
  import opened Wrappers
  import opened Bytes

  // ---------------------------------------------------------------- UTF-8, RFC 3629 section 4

  predicate Tail(b: byte) { 0x80 <= b <= 0xBF }

  /** The length of the well-formed character `bytes` starts with, or 0. */
  function CharLength(bytes: seq<byte>): (length: nat)
    ensures length <= 4 && length <= |bytes|
  {
    if bytes == [] then 0
    else if bytes[0] <= 0x7F then 1
    else if |bytes| >= 2 && 0xC2 <= bytes[0] <= 0xDF && Tail(bytes[1]) then 2
    else if |bytes| >= 3 && Tail(bytes[2])
         && (|| (bytes[0] == 0xE0 && 0xA0 <= bytes[1] <= 0xBF)
             || (0xE1 <= bytes[0] <= 0xEC && Tail(bytes[1]))
             || (bytes[0] == 0xED && 0x80 <= bytes[1] <= 0x9F)
             || (0xEE <= bytes[0] <= 0xEF && Tail(bytes[1]))) then 3
    else if |bytes| >= 4 && Tail(bytes[2]) && Tail(bytes[3])
         && (|| (bytes[0] == 0xF0 && 0x90 <= bytes[1] <= 0xBF)
             || (0xF1 <= bytes[0] <= 0xF3 && Tail(bytes[1]))
             || (bytes[0] == 0xF4 && 0x80 <= bytes[1] <= 0x8F)) then 4
    else 0
  }

  predicate ValidUtf8(bytes: seq<byte>)
    decreases |bytes|
  {
    bytes == [] || (CharLength(bytes) > 0 && ValidUtf8(bytes[CharLength(bytes)..]))
  }

  function CharCount(bytes: seq<byte>): nat
    requires ValidUtf8(bytes)
    decreases |bytes|
  {
    if bytes == [] then 0 else 1 + CharCount(bytes[CharLength(bytes)..])
  }

  lemma {:induction false} ValidConcat(a: seq<byte>, b: seq<byte>)
    requires ValidUtf8(a)
    ensures ValidUtf8(a + b) <==> ValidUtf8(b)
    decreases |a|
  {
    if a == [] {
      assert a + b == b;
    } else {
      var n := CharLength(a);
      assert CharLength(a + b) == n;
      assert (a + b)[n..] == a[n..] + b;
      ValidConcat(a[n..], b);
    }
  }

  // ---------------------------------------------------------------- escaping

  function HexDigit(d: nat): byte
    requires d < 16
  {
    if d < 10 then 48 + d else 97 + (d - 10)
  }

  /** `\xNN` in lower case. */
  function Escape(b: byte): seq<byte> { [92, 120, HexDigit(b / 16), HexDigit(b % 16)] }

  /** How many bytes the lead byte claims; 0 when it cannot start a sequence. */
  function ClaimedLength(b: byte): nat {
    if 0xC0 <= b <= 0xDF then 2 else if 0xE0 <= b <= 0xEF then 3 else if 0xF0 <= b <= 0xF7 then 4 else 0
  }

  /** The multi-byte character at `index`, when the claimed bytes are exactly one. */
  predicate Decodes(bytes: seq<byte>, index: nat)
    requires index < |bytes|
  {
    var length := ClaimedLength(bytes[index]);
    && length > 0 && index + length <= |bytes|
    && ValidUtf8(bytes[index..index + length]) && CharCount(bytes[index..index + length]) == 1
  }

  function StepLength(bytes: seq<byte>, index: nat): (n: nat)
    requires index < |bytes|
    ensures 1 <= n && index + n <= |bytes|
  {
    if bytes[index] < 0x80 || !Decodes(bytes, index) then 1 else ClaimedLength(bytes[index])
  }

  predicate Escaped(bytes: seq<byte>, index: nat)
    requires index < |bytes|
  {
    bytes[index] >= 0x80 && !Decodes(bytes, index)
  }

  /** The text shown for the bytes from `index` on. */
  function TextFrom(bytes: seq<byte>, index: nat): seq<byte>
    requires index <= |bytes|
    decreases |bytes| - index
  {
    if index == |bytes| then []
    else
      var n := StepLength(bytes, index);
      (if Escaped(bytes, index) then Escape(bytes[index]) else bytes[index..index + n]) + TextFrom(bytes, index + n)
  }

  lemma Prepend(a: seq<byte>, b: seq<byte>, c: seq<byte>)
    ensures a + (b + c) == (a + b) + c
  {}

  /** `escape_invalid_bytes`. */
  method EscapeInvalidBytes(bytes: seq<byte>) returns (text: seq<byte>)
    ensures text == TextFrom(bytes, 0)
  {
    hide Decodes, Escape, TextFrom;
    text := [];
    var index := 0;
    while index < |bytes|
      invariant 0 <= index <= |bytes|
      invariant text + TextFrom(bytes, index) == TextFrom(bytes, 0)
      decreases |bytes| - index
    {
      var b := bytes[index];
      OneStepOfText(bytes, index);
      ghost var rest := TextFrom(bytes, index + StepLength(bytes, index));
      if b < 0x80 {
        assert bytes[index..index + 1] == [b];
        Prepend(text, [b], rest);
        text := text + [b];
        index := index + 1;
      } else {
        var length := ClaimedLength(b);
        if Decodes(bytes, index) {
          Prepend(text, bytes[index..index + length], rest);
          text := text + bytes[index..index + length];
          index := index + length;
        } else {
          Prepend(text, Escape(b), rest);
          text := text + Escape(b);
          index := index + 1;
        }
      }
    }
    TextOfNothing(bytes, index);
  }

  datatype Display = Display(text: seq<byte>, representable: bool)

  /** `to_display_path`. */
  function ToDisplayPath(bytes: seq<byte>): Display {
    if ValidUtf8(bytes) then Display(bytes, true) else Display(TextFrom(bytes, 0), false)
  }

  // ---------------------------------------------------------------- the way back

  predicate IsHexDigit(b: byte) { 48 <= b <= 57 || 97 <= b <= 102 || 65 <= b <= 70 }

  predicate EscapeAt(text: seq<byte>, i: nat) {
    i + 3 < |text| && text[i] == 92 && text[i + 1] == 120 && IsHexDigit(text[i + 2]) && IsHexDigit(text[i + 3])
  }

  predicate HasEscape(text: seq<byte>) { exists i :: 0 <= i < |text| && EscapeAt(text, i) }

  /** `contains_escape_form`. */
  method ContainsEscapeForm(text: seq<byte>) returns (found: bool)
    ensures found == HasEscape(text)
  {
    var index := 0;
    while index + 3 < |text|
      invariant forall i :: 0 <= i < index ==> !EscapeAt(text, i)
    {
      if EscapeAt(text, index) { return true; }
      index := index + 1;
    }
    return false;
  }

  /** `encode_execution_path`. */
  function EncodeExecutionPath(text: seq<byte>): Option<seq<byte>> {
    if 0 in text then None else if HasEscape(text) then None else Some(text)
  }

  // ---------------------------------------------------------------- what the text tells

  lemma OneCharacter(bytes: seq<byte>)
    requires ValidUtf8(bytes) && CharCount(bytes) == 1
    ensures CharLength(bytes) == |bytes|
  {
    var rest := bytes[CharLength(bytes)..];
    assert CharCount(rest) == 0;
  }

  lemma LeadClaimsItsLength(bytes: seq<byte>)
    requires CharLength(bytes) > 1
    ensures ClaimedLength(bytes[0]) == CharLength(bytes)
    ensures bytes[0] >= 0x80
  {}

  lemma WholeCharacter(bytes: seq<byte>)
    requires CharLength(bytes) > 0
    ensures ValidUtf8(bytes[..CharLength(bytes)]) && CharCount(bytes[..CharLength(bytes)]) == 1
  {
    var part := bytes[..CharLength(bytes)];
    assert CharLength(part) == CharLength(bytes);
    assert part[CharLength(part)..] == [];
  }

  /** A step escapes exactly where no well-formed character starts, and otherwise takes that
      one character. */
  lemma StepTakesOneCharacter(bytes: seq<byte>, index: nat)
    requires index < |bytes|
    ensures Escaped(bytes, index) <==> CharLength(bytes[index..]) == 0
    ensures !Escaped(bytes, index) ==> StepLength(bytes, index) == CharLength(bytes[index..])
  {
    var rest := bytes[index..];
    if bytes[index] >= 0x80 {
      if CharLength(rest) > 0 {
        LeadClaimsItsLength(rest);
        WholeCharacter(rest);
        assert rest[..CharLength(rest)] == bytes[index..index + CharLength(rest)];
      }
      if Decodes(bytes, index) {
        var part := bytes[index..index + ClaimedLength(bytes[index])];
        OneCharacter(part);
        assert rest[..|part|] == part;
        PrefixCharacter(part, rest);
      }
    }
  }

  lemma PrefixCharacter(part: seq<byte>, whole: seq<byte>)
    requires part <= whole && CharLength(part) == |part| > 0
    ensures CharLength(whole) == |part|
  {}

  /** Text without an escape is the bytes themselves, and then they were valid UTF-8; text
      with one contains the escape form. */
  lemma {:induction false} TextTellsValidity(bytes: seq<byte>, index: nat)
    requires index <= |bytes|
    ensures ValidUtf8(bytes[index..]) ==> TextFrom(bytes, index) == bytes[index..]
    ensures !ValidUtf8(bytes[index..]) ==> HasEscape(TextFrom(bytes, index))
    decreases |bytes| - index
  {
    hide CharLength, StepLength, Escaped, EscapeAt, HasEscape;
    if index < |bytes| {
      var n := StepLength(bytes, index);
      StepTakesOneCharacter(bytes, index);
      TextTellsValidity(bytes, index + n);
      assert bytes[index..][n..] == bytes[index + n..];
      assert bytes[index..] == bytes[index..index + n] + bytes[index + n..];
      var head := if Escaped(bytes, index) then Escape(bytes[index]) else bytes[index..index + n];
      if Escaped(bytes, index) {
        EscapeInFront(bytes[index], TextFrom(bytes, index + n));
      } else if !ValidUtf8(bytes[index..]) {
        EscapeBehind(head, TextFrom(bytes, index + n));
      }
    }
  }

  lemma EscapeInFront(b: byte, tail: seq<byte>)
    ensures HasEscape(Escape(b) + tail)
  {
    assert EscapeAt(Escape(b) + tail, 0);
  }

  lemma EscapeBehind(head: seq<byte>, tail: seq<byte>)
    requires HasEscape(tail)
    ensures HasEscape(head + tail)
  {
    var i :| 0 <= i < |tail| && EscapeAt(tail, i);
    assert EscapeAt(head + tail, |head| + i);
  }

  /** Display text never becomes a wrong path. Given back, the text of any path is refused
      or is that very path; and it is accepted exactly for valid UTF-8 without a NUL and
      without the escape form. */
  lemma DisplayNeverNamesAnotherPath(bytes: seq<byte>)
    ensures var back := EncodeExecutionPath(ToDisplayPath(bytes).text);
            && (back.None? || back == Some(bytes))
            && (back.Some? <==> ValidUtf8(bytes) && 0 !in bytes && !HasEscape(bytes))
  {
    assert bytes[0..] == bytes;
    TextTellsValidity(bytes, 0);
  }

  /** What is shown for bytes that are not UTF-8 says so: it contains an escape. */
  lemma UnrepresentableTextIsEscaped(bytes: seq<byte>)
    ensures !ToDisplayPath(bytes).representable ==> HasEscape(ToDisplayPath(bytes).text)
    ensures ToDisplayPath(bytes).representable <==> ToDisplayPath(bytes).text == bytes && ValidUtf8(bytes)
  {
    assert bytes[0..] == bytes;
    TextTellsValidity(bytes, 0);
  }

  /** Whatever the bytes, the text shown is well-formed UTF-8. */
  lemma {:induction false} TextIsUtf8(bytes: seq<byte>, index: nat)
    requires index <= |bytes|
    ensures ValidUtf8(TextFrom(bytes, index))
    decreases |bytes| - index
  {
    hide CharLength, CharCount, StepLength, Escaped, Escape;
    if index < |bytes| {
      var n := StepLength(bytes, index);
      StepTakesOneCharacter(bytes, index);
      TextIsUtf8(bytes, index + n);
      if Escaped(bytes, index) {
        EscapeIsUtf8(bytes[index]);
        ValidConcat(Escape(bytes[index]), TextFrom(bytes, index + n));
      } else {
        WholeCharacter(bytes[index..]);
        assert bytes[index..][..n] == bytes[index..index + n];
        ValidConcat(bytes[index..index + n], TextFrom(bytes, index + n));
      }
    }
  }

  lemma EscapeIsUtf8(b: byte)
    ensures ValidUtf8(Escape(b))
  {
    AsciiIsUtf8(Escape(b));
  }

  lemma {:induction false} AsciiIsUtf8(text: seq<byte>)
    requires forall i :: 0 <= i < |text| ==> text[i] < 0x80
    ensures ValidUtf8(text)
    decreases |text|
  {
    if text != [] { AsciiIsUtf8(text[1..]); }
  }

  // ---------------------------------------------------------------- telling two paths apart

  /** The value of a hexadecimal digit, in either case. */
  function HexValue(b: byte): nat
    requires IsHexDigit(b)
  {
    if b <= 57 then b - 48 else if b >= 97 then b - 87 else b - 55
  }

  /** A reader of the shown text: an escape form stands for the byte it spells. */
  function Unescaped(text: seq<byte>): seq<byte> {
    if text == [] then []
    else if EscapeAt(text, 0) then [ByteSpelled(text[2], text[3])] + Unescaped(text[4..])
    else [text[0]] + Unescaped(text[1..])
  }

  function ByteSpelled(high: byte, low: byte): byte
    requires IsHexDigit(high) && IsHexDigit(low)
  {
    16 * HexValue(high) + HexValue(low)
  }

  /** The two digits of an escape, in lower case, read back as the byte. */
  lemma EscapeSpellsItsByte(b: byte)
    ensures |Escape(b)| == 4 && EscapeAt(Escape(b), 0)
    ensures forall i :: 2 <= i < 4 ==> 48 <= Escape(b)[i] <= 57 || 97 <= Escape(b)[i] <= 102
    ensures ByteSpelled(Escape(b)[2], Escape(b)[3]) == b
  {}

  lemma UnescapedEscape(b: byte, rest: seq<byte>)
    ensures Unescaped(Escape(b) + rest) == [b] + Unescaped(rest)
  {
    EscapeSpellsItsByte(b);
    hide Escape, ByteSpelled, IsHexDigit;
    var text := Escape(b) + rest;
    assert text[..4] == Escape(b) && text[4..] == rest;
    assert forall i :: 0 <= i < 4 ==> text[i] == Escape(b)[i];
  }

  lemma {:induction false} UnescapedRaw(raw: seq<byte>, rest: seq<byte>)
    requires forall i :: 0 <= i < |raw| ==> raw[i] != 92
    ensures Unescaped(raw + rest) == raw + Unescaped(rest)
    decreases |raw|
  {
    if raw == [] {
      assert raw + rest == rest;
    } else {
      UnescapedRaw(raw[1..], rest);
      assert (raw + rest)[1..] == raw[1..] + rest;
      assert raw == [raw[0]] + raw[1..];
    }
  }

  /** Where the text goes on with an ASCII character that starts no escape, so do the bytes. */
  lemma AsciiIsItself(bytes: seq<byte>, index: nat)
    requires index < |bytes|
    requires var text := TextFrom(bytes, index); text != [] && text[0] < 0x80 && text[0] != 92
    ensures bytes[index] == TextFrom(bytes, index)[0] && TextFrom(bytes, index)[1..] == TextFrom(bytes, index + 1)
  {
    hide Decodes, TextFrom;
    OneStepOfText(bytes, index);
    var n := StepLength(bytes, index);
    assert Escape(bytes[index])[0] == 92;
    assert bytes[index..index + n][0] == bytes[index];
    assert n == 1 && bytes[index..index + 1] == [bytes[index]];
  }

  lemma OneStepOfText(bytes: seq<byte>, index: nat)
    requires index < |bytes|
    ensures var n := StepLength(bytes, index);
            TextFrom(bytes, index)
            == (if Escaped(bytes, index) then Escape(bytes[index]) else bytes[index..index + n]) + TextFrom(bytes, index + n)
  {}

  lemma TextOfNothing(bytes: seq<byte>, index: nat)
    requires index <= |bytes|
    ensures TextFrom(bytes, index) == [] <==> index == |bytes|
  {
    if index < |bytes| { OneStepOfText(bytes, index); }
  }

  /** An escape form in the text that is not of the text's own making is in the bytes. */
  lemma RawEscapeIsInTheBytes(bytes: seq<byte>, index: nat)
    requires index < |bytes| && bytes[index] == 92 && EscapeAt(TextFrom(bytes, index), 0)
    ensures EscapeAt(bytes, index)
  {
    hide TextFrom, Decodes, Escape;
    OneStepOfText(bytes, index);
    var text, rest := TextFrom(bytes, index), TextFrom(bytes, index + 1);
    assert bytes[index..index + 1] == [92];
    assert text == [92] + rest && rest[0] == 120 && IsHexDigit(rest[1]) && IsHexDigit(rest[2]);
    TextOfNothing(bytes, index + 1);
    AsciiIsItself(bytes, index + 1);
    TextOfNothing(bytes, index + 2);
    AsciiIsItself(bytes, index + 2);
    TextOfNothing(bytes, index + 3);
    AsciiIsItself(bytes, index + 3);
  }

  lemma CharactersAreHigh(bytes: seq<byte>)
    requires CharLength(bytes) > 1
    ensures forall i :: 0 <= i < CharLength(bytes) ==> bytes[i] >= 0x80
  {}

  lemma StepIsPlain(bytes: seq<byte>, index: nat)
    requires index < |bytes| && !Escaped(bytes, index) && bytes[index] != 92
    ensures forall i :: index <= i < index + StepLength(bytes, index) ==> bytes[i] != 92
  {
    StepTakesOneCharacter(bytes, index);
    if CharLength(bytes[index..]) > 1 { CharactersAreHigh(bytes[index..]); }
    hide CharLength, Decodes;
    assert forall i :: index <= i < |bytes| ==> bytes[i] == bytes[index..][i - index];
  }

  /** Bytes that contain no escape form themselves can be read back from the text shown. */
  lemma {:induction false} TextReadsBack(bytes: seq<byte>, index: nat)
    requires index <= |bytes| && !HasEscape(bytes)
    ensures Unescaped(TextFrom(bytes, index)) == bytes[index..]
    decreases |bytes| - index
  {
    hide Escaped, StepLength, Escape, Unescaped, TextFrom, EscapeAt;
    if index == |bytes| {
      TextOfNothing(bytes, index);
      NothingUnescaped();
    } else {
      var n := StepLength(bytes, index);
      OneStepOfText(bytes, index);
      TextReadsBack(bytes, index + n);
      var rest := TextFrom(bytes, index + n);
      assert bytes[index..] == bytes[index..index + n] + bytes[index + n..];
      if Escaped(bytes, index) {
        EscapedIsOne(bytes, index);
        UnescapedEscape(bytes[index], rest);
        assert bytes[index..index + 1] == [bytes[index]];
      } else if bytes[index] == 92 {
        BackslashIsOne(bytes, index);
        if EscapeAt(TextFrom(bytes, index), 0) { RawEscapeIsInTheBytes(bytes, index); }
        assert bytes[index..index + 1] == [92];
        UnescapedBackslash(rest);
      } else {
        StepIsPlain(bytes, index);
        UnescapedRaw(bytes[index..index + n], rest);
      }
    }
  }

  lemma NothingUnescaped()
    ensures Unescaped([]) == []
  {}

  lemma EscapedIsOne(bytes: seq<byte>, index: nat)
    requires index < |bytes| && Escaped(bytes, index)
    ensures StepLength(bytes, index) == 1
  {}

  lemma BackslashIsOne(bytes: seq<byte>, index: nat)
    requires index < |bytes| && bytes[index] == 92
    ensures StepLength(bytes, index) == 1
  {}

  lemma UnescapedBackslash(rest: seq<byte>)
    requires !EscapeAt([92] + rest, 0)
    ensures Unescaped([92] + rest) == [92] + Unescaped(rest)
  {
    assert ([92] + rest)[1..] == rest;
  }

  /** A user can tell two such paths apart: different bytes are shown as different text,
      valid UTF-8 or not, as long as neither contains an escape form itself. */
  lemma DifferentPathsLookDifferent(a: seq<byte>, b: seq<byte>)
    requires !HasEscape(a) && !HasEscape(b)
    ensures ToDisplayPath(a).text == ToDisplayPath(b).text <==> a == b
  {
    hide TextFrom, Unescaped, HasEscape, ValidUtf8;
    ShownAsText(a);
    ShownAsText(b);
    TextReadsBack(a, 0);
    TextReadsBack(b, 0);
    assert a[0..] == a && b[0..] == b;
  }

  lemma ShownAsText(bytes: seq<byte>)
    ensures ToDisplayPath(bytes).text == TextFrom(bytes, 0)
  {
    hide TextFrom;
    assert bytes[0..] == bytes;
    TextTellsValidity(bytes, 0);
  }

  /** Otherwise they may look the same: the byte 0x80 and the four characters that spell it. */
  lemma SpelledEscapeLooksTheSame()
    ensures [0x80] != [92, 120, 56, 48] && ToDisplayPath([0x80]).text == ToDisplayPath([92, 120, 56, 48]).text
  {
    var spelled: seq<byte> := [92, 120, 56, 48];
    AsciiIsUtf8(spelled);
    var high: seq<byte> := [0x80];
    assert Escaped(high, 0);
    assert TextFrom(high, 0) == Escape(0x80) + TextFrom(high, 1) == spelled;
  }
}
