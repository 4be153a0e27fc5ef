/** The opaque list cursor: base64url without padding (section 5 of RFC 4648)
    of "<time>|<id>". The text form of a time is a parameter. */
module Cursor {
  import opened Keys

  // ----- base64url -----

  /** The alphabet A-Z a-z 0-9 - _: no character needs escaping in a URL. */
  function Digit(v: int): (b: Byte)
    requires 0 <= v < 64
    ensures 65 <= b <= 90 || 97 <= b <= 122 || 48 <= b <= 57 || b == 45 || b == 95
  {
    if v < 26 then v + 65
    else if v < 52 then v - 26 + 97
    else if v < 62 then v - 52 + 48
    else if v == 62 then 45
    else 95
  }

  /** The alphabet of RFC 4648, section 5, in its order. */
  lemma DigitsAreTheAlphabet(v: int)
    requires 0 <= v < 64
    ensures v < 26 ==> Digit(v) == 'A' as int + v
    ensures 26 <= v < 52 ==> Digit(v) == 'a' as int + (v - 26)
    ensures 52 <= v < 62 ==> Digit(v) == '0' as int + (v - 52)
    ensures v == 62 ==> Digit(v) == '-' as int
    ensures v == 63 ==> Digit(v) == '_' as int
  {}

  function Value(b: Byte): Option<int> {
    if 65 <= b <= 90 then Some(b - 65)
    else if 97 <= b <= 122 then Some(b - 97 + 26)
    else if 48 <= b <= 57 then Some(b - 48 + 52)
    else if b == 45 then Some(62)
    else if b == 95 then Some(63)
    else None
  }

  predicate AreDigits(d: seq<int>) {
    forall i :: 0 <= i < |d| ==> 0 <= d[i] < 64
  }

  /** Three bytes are four digits; one or two last bytes are two or three. */
  function ToDigits(data: Text): (d: seq<int>)
    ensures AreDigits(d)
  {
    if data == [] then []
    else if |data| == 1 then [data[0] / 4, data[0] % 4 * 16]
    else if |data| == 2 then [data[0] / 4, data[0] % 4 * 16 + data[1] / 16, data[1] % 16 * 4]
    else
      [data[0] / 4, data[0] % 4 * 16 + data[1] / 16, data[1] % 16 * 4 + data[2] / 64, data[2] % 64]
      + ToDigits(data[3..])
  }

  /** Four digits stand for the 24 bits of three bytes, most significant first;
      one or two last bytes are padded with zero bits. */
  lemma DigitsAreTheBits(data: Text)
    ensures |data| == 1 ==> ToDigits(data)[0] * 64 + ToDigits(data)[1] == data[0] as int * 16
    ensures |data| == 2 ==>
      var d := ToDigits(data);
      |d| == 3 && (d[0] * 64 + d[1]) * 64 + d[2] == (data[0] as int * 256 + data[1]) * 4
    ensures |data| >= 3 ==>
      var d := ToDigits(data);
      && |d| >= 4
      && ((d[0] * 64 + d[1]) * 64 + d[2]) * 64 + d[3] == (data[0] as int * 256 + data[1]) * 256 + data[2]
      && d[4..] == ToDigits(data[3..])
  {}

  function DigitText(d: seq<int>): Text
    requires AreDigits(d)
  {
    if d == [] then [] else [Digit(d[0])] + DigitText(d[1..])
  }

  function Encode(data: Text): Text {
    DigitText(ToDigits(data))
  }

  /** The digits of a text; line breaks are skipped. None: a byte outside the
      alphabet. */
  function Digits(text: Text): Option<seq<int>> {
    if text == [] then Some([])
    else
      var rest := Digits(text[1..]);
      if text[0] == 10 || text[0] == 13 then rest
      else if Value(text[0]).None? || rest.None? then None
      else Some([Value(text[0]).value] + rest.value)
  }

  /** Bits after the last full byte are ignored. */
  function Bytes(d: seq<int>): Option<Text>
    requires AreDigits(d)
  {
    if d == [] then Some([])
    else if |d| == 1 then None
    else if |d| == 2 then Some([d[0] * 4 + d[1] / 16])
    else if |d| == 3 then Some([d[0] * 4 + d[1] / 16, d[1] % 16 * 16 + d[2] / 4])
    else
      var rest := Bytes(d[4..]);
      if rest.None? then None
      else Some([d[0] * 4 + d[1] / 16, d[1] % 16 * 16 + d[2] / 4, d[2] % 4 * 64 + d[3]] + rest.value)
  }

  lemma {:induction false} DigitsAreDigits(text: Text)
    ensures Digits(text).Some? ==> AreDigits(Digits(text).value)
  {
    if text != [] { DigitsAreDigits(text[1..]); }
  }

  function Decode(text: Text): Option<Text> {
    DigitsAreDigits(text);
    if Digits(text).None? then None else Bytes(Digits(text).value)
  }

  lemma {:induction false} DigitTextRoundTrip(d: seq<int>)
    requires AreDigits(d)
    ensures Digits(DigitText(d)) == Some(d)
  {
    if d != [] {
      DigitTextRoundTrip(d[1..]);
      assert DigitText(d)[1..] == DigitText(d[1..]);
      assert d == [d[0]] + d[1..];
    }
  }

  /** Three bytes come back from their four digits. */
  lemma GroupRoundTrip(a: Byte, b: Byte, c: Byte)
    ensures a / 4 * 4 + (a % 4 * 16 + b / 16) / 16 == a
    ensures (a % 4 * 16 + b / 16) % 16 * 16 + (b % 16 * 4 + c / 64) / 4 == b
    ensures (b % 16 * 4 + c / 64) % 4 * 64 + c % 64 == c
    ensures a % 4 * 16 / 16 == a % 4 && b % 16 * 4 / 4 == b % 16 && (a % 4 * 16 + b / 16) % 16 == b / 16
  {}

  lemma {:induction false} DigitsRoundTrip(data: Text)
    ensures Bytes(ToDigits(data)) == Some(data)
  {
    if |data| == 1 {
      GroupRoundTrip(data[0], 0, 0);
      assert data == [data[0]];
    } else if |data| == 2 {
      GroupRoundTrip(data[0], data[1], 0);
      assert data == [data[0], data[1]];
    } else if |data| > 2 {
      LongRoundTrip(data[0], data[1], data[2], data[3..]);
      DigitsRoundTrip(data[3..]);
      assert data == [data[0], data[1], data[2]] + data[3..];
    }
  }

  lemma LongRoundTrip(a: Byte, b: Byte, c: Byte, rest: Text)
    ensures var d := ToDigits([a, b, c] + rest);
      var tail := Bytes(ToDigits(rest));
      Bytes(d) == if tail.None? then None else Some([a, b, c] + tail.value)
  {
    var data := [a, b, c] + rest;
    assert data[3..] == rest;
    var d := ToDigits(data);
    assert d == [a / 4, a % 4 * 16 + b / 16, b % 16 * 4 + c / 64, c % 64] + ToDigits(rest);
    assert d[4..] == ToDigits(rest);
    GroupRoundTrip(a, b, c);
  }

  /** Decoding an encoded text gives the text back, for every byte string. */
  lemma Base64RoundTrip(data: Text)
    ensures Decode(Encode(data)) == Some(data)
  {
    DigitTextRoundTrip(ToDigits(data));
    DigitsRoundTrip(data);
  }

  // ----- The cursor -----

  const BAR: Byte := 124

  /** Format and Parse of a time (RFC 3339 with nanoseconds in the source). */
  datatype TimeText = TimeText(format: int -> Text, parse: Text -> Option<int>)

  /** A time text is not empty, has no bar and parses back to its time. */
  ghost predicate Faithful(tt: TimeText) {
    forall t :: tt.parse(tt.format(t)) == Some(t) && BAR !in tt.format(t) && tt.format(t) != []
  }

  datatype Decoded = Position(key: Key) | BadEncoding | BadFormat | BadTimestamp

  function EncodeCursor(tt: TimeText, key: Key): Text {
    Encode(tt.format(key.at) + [BAR] + key.id)
  }

  /** The index of the first bar, or the length when there is none. */
  function FirstBar(t: Text): (i: nat)
    ensures i <= |t| && BAR !in t[..i] && (i < |t| ==> t[i] == BAR)
  {
    if t == [] || t[0] == BAR then 0
    else
      var i := 1 + FirstBar(t[1..]);
      assert t[..i] == [t[0]] + t[1..][..i - 1];
      i
  }

  lemma {:induction false} FirstBarAfter(prefix: Text, rest: Text)
    requires BAR !in prefix
    ensures FirstBar(prefix + [BAR] + rest) == |prefix|
  {
    var t := prefix + [BAR] + rest;
    if prefix != [] {
      FirstBarAfter(prefix[1..], rest);
      assert t[1..] == prefix[1..] + [BAR] + rest;
    }
  }

  function DecodeCursor(tt: TimeText, cursor: Text): Decoded {
    var data := Decode(cursor);
    if data.None? then BadEncoding
    else
      var i := FirstBar(data.value);
      if i == |data.value| || i == 0 || i + 1 == |data.value| then BadFormat
      else
        var at := tt.parse(data.value[..i]);
        if at.None? then BadTimestamp else Position(Key(at.value, data.value[i + 1..]))
  }

  /** The cursor text is the encoding of the time, a bar and the id. */
  lemma CursorHoldsTimeBarId(tt: TimeText, key: Key)
    ensures Decode(EncodeCursor(tt, key)) == Some(tt.format(key.at) + ['|' as int] + key.id)
  {
    Base64RoundTrip(tt.format(key.at) + [BAR] + key.id);
  }

  /** The part before the first bar is the time, the rest the id, and neither
      may be empty. */
  predicate IsSplit(data: Text, stamp: Text, id: Text) {
    stamp != [] && '|' as int !in stamp && id != [] && data == stamp + ['|' as int] + id
  }

  /** What a cursor text decodes to, for any text. */
  lemma DecodeCursorMeans(tt: TimeText, cursor: Text)
    ensures DecodeCursor(tt, cursor) == BadEncoding <==> Decode(cursor).None?
    ensures forall key :: DecodeCursor(tt, cursor) == Position(key) <==>
      && Decode(cursor).Some?
      && exists stamp :: IsSplit(Decode(cursor).value, stamp, key.id) && tt.parse(stamp) == Some(key.at)
    ensures DecodeCursor(tt, cursor) == BadTimestamp <==>
      && Decode(cursor).Some?
      && exists stamp, id :: IsSplit(Decode(cursor).value, stamp, id) && tt.parse(stamp).None?
  {
    if Decode(cursor).Some? {
      var data := Decode(cursor).value;
      var i := FirstBar(data);
      if 0 < i && i + 1 < |data| {
        assert data == data[..i] + [BAR] + data[i + 1..];
        assert IsSplit(data, data[..i], data[i + 1..]);
      }
      forall stamp: Text, id: Text | IsSplit(data, stamp, id)
        ensures i == |stamp| && data[..i] == stamp && data[i + 1..] == id
      {
        FirstBarAfter(stamp, id);
      }
    }
  }

  lemma {:induction false} LineBreaksAreSkipped(a: Text, b: Text)
    ensures Digits(a + [10] + b) == Digits(a + b) && Digits(a + [13] + b) == Digits(a + b)
  {
    if a == [] {
      assert ([10] + b)[1..] == b && ([13] + b)[1..] == b && [] + b == b && [] + [10] + b == [10] + b;
      assert [] + [13] + b == [13] + b;
    } else {
      LineBreaksAreSkipped(a[1..], b);
      assert (a + [10] + b)[1..] == a[1..] + [10] + b && (a + b)[1..] == a[1..] + b;
      assert (a + [13] + b)[1..] == a[1..] + [13] + b;
    }
  }

  /** A cursor decodes to the position it was made from, also when the id holds
      bars; the only id that does not survive is the empty one. */
  lemma CursorRoundTrip(tt: TimeText, key: Key)
    requires Faithful(tt)
    ensures DecodeCursor(tt, EncodeCursor(tt, key)) == Position(key) <==> key.id != []
    ensures key.id == [] ==> DecodeCursor(tt, EncodeCursor(tt, key)) == BadFormat
    ensures EncodeCursor(tt, key) != []
  {
    var stamp := tt.format(key.at);
    var data := stamp + [BAR] + key.id;
    Base64RoundTrip(data);
    FirstBarAfter(stamp, key.id);
    assert data[..|stamp|] == stamp && data[|stamp| + 1..] == key.id;
  }
}
