/** The session protocol's framing of arguments: four-byte words, and strings padded to them. */
module WireFraming {
  import opened Common

  // Text, as the bytes of a string.

  predicate Continues(b: Byte) { 0x80 <= b <= 0xBF }

  /** The second byte of a three-byte sequence: no overlong forms and no surrogates. */
  predicate SecondOfThree(a: Byte, b: Byte) {
    Continues(b) && (a == 0xE0 ==> 0xA0 <= b) && (a == 0xED ==> b <= 0x9F)
  }

  /** The second byte of a four-byte sequence: no overlong forms and nothing past the last code point. */
  predicate SecondOfFour(a: Byte, b: Byte) {
    Continues(b) && (a == 0xF0 ==> 0x90 <= b) && (a == 0xF4 ==> b <= 0x8F)
  }

  /** Well-formed UTF-8, as table 3-7 of the Unicode Standard lists it. */
  predicate Utf8(b: seq<Byte>) {
    if b == [] then true
    else if b[0] <= 0x7F then Utf8(b[1..])
    else if 0xC2 <= b[0] <= 0xDF then |b| >= 2 && Continues(b[1]) && Utf8(b[2..])
    else if 0xE0 <= b[0] <= 0xEF then |b| >= 3 && SecondOfThree(b[0], b[1]) && Continues(b[2]) && Utf8(b[3..])
    else if 0xF0 <= b[0] <= 0xF4 then
      |b| >= 4 && SecondOfFour(b[0], b[1]) && Continues(b[2]) && Continues(b[3]) && Utf8(b[4..])
    else false
  }

  type Text = b: seq<Byte> | Utf8(b)

  // Writing.

  datatype Argument = Number(value: U32) | String(text: Text)

  /** The length word of a string: its bytes and a terminator, or one when that does not fit the word. */
  function LengthWord(text: Text): U32 { if |text| + 1 <= U32_MAX then |text| + 1 else 1 }

  function Zeros(n: nat): (z: seq<Byte>)
    ensures |z| == n
  {
    seq(n, _ => 0)
  }

  /** The zeros that bring a length to a whole number of words. */
  function Padding(n: nat): (p: nat)
    ensures p < 4 && (n + p) % 4 == 0
  {
    (4 - n % 4) % 4
  }

  /** A buffer with one more argument. */
  function Put(order: Order, out: seq<Byte>, a: Argument): (b: seq<Byte>)
    ensures out <= b && |b| >= |out| + 4
    ensures |out| % 4 == 0 ==> |b| % 4 == 0
  {
    match a
    case Number(value) => out + Word(order, value)
    case String(text) =>
      var terminated := out + Word(order, LengthWord(text)) + text + [0];
      terminated + Zeros(Padding(|terminated|))
  }

  function PutAll(order: Order, out: seq<Byte>, args: seq<Argument>): (b: seq<Byte>)
    ensures out <= b
    ensures |out| % 4 == 0 ==> |b| % 4 == 0
  {
    if args == [] then out else Put(order, PutAll(order, out, args[..|args| - 1]), args[|args| - 1])
  }

  class Message {
    const order: Order
    var out: seq<Byte>

    constructor (order: Order)
      ensures this.order == order && out == []
    {
      this.order := order;
      out := [];
    }

    method PutWord(value: U32)
      modifies this
      ensures out == Put(order, old(out), Number(value))
    {
      out := out + Word(order, value);
    }

    method PutText(text: Text)
      modifies this
      ensures out == Put(order, old(out), String(text))
    {
      PutWord(LengthWord(text));
      out := out + text;
      out := out + [0];
      ghost var terminated := out;
      ghost var n := 0;
      while |out| % 4 != 0
        invariant n <= Padding(|terminated|) && out == terminated + Zeros(n)
        decreases Padding(|terminated|) - n
      {
        out := out + [0];
        n := n + 1;
      }
    }
  }

  // Reading.

  function ReadWord(order: Order, bytes: seq<Byte>): Option<U32> {
    if |bytes| < 4 then None else Some(WordOf(order, bytes[..4]))
  }

  /** The word as a signed number. */
  function ReadSigned(order: Order, bytes: seq<Byte>): Option<int> {
    match ReadWord(order, bytes)
    case None => None
    case Some(v) => Some(if v <= I32_MAX then v else v - WORD)
  }

  /** A string read back: as many bytes as its length says, less the terminator, if they are UTF-8. */
  function ReadText(order: Order, body: seq<Byte>, at: nat): Option<Text> {
    if at > |body| then None
    else
      match ReadWord(order, body[at..])
      case None => None
      case Some(length) =>
        if length < 1 || at + 4 + length - 1 > |body| then None
        else
          var bytes := body[at + 4..at + 4 + length - 1];
          if Utf8(bytes) then Some(bytes) else None
  }

  function Trailing(order: Order, body: seq<Byte>): Option<U32> {
    if |body| < 4 then None else ReadWord(order, body[|body| - 4..])
  }

  // Reading what was written.

  /** A word written with a signed number's bits reads back as the number. */
  lemma SignedBack(order: Order, v: int)
    requires I32_MIN <= v <= I32_MAX
    ensures ReadSigned(order, Word(order, if v >= 0 then v else v + WORD)) == Some(v)
  {
    var w: U32 := if v >= 0 then v else v + WORD;
    WordBack(order, w);
    assert Word(order, w)[..4] == Word(order, w);
  }

  lemma WordAt(order: Order, out: seq<Byte>, v: U32, after: seq<Byte>)
    ensures ReadWord(order, (out + Word(order, v) + after)[|out|..]) == Some(v)
  {
    WordBack(order, v);
    assert (out + Word(order, v) + after)[|out|..][..4] == Word(order, v);
  }

  /** A string written, and whatever follows it: its length, its bytes, the rest. */
  lemma TextLaidOut(order: Order, out: seq<Byte>, text: Text, after: seq<Byte>) returns (tail: seq<Byte>)
    ensures Put(order, out, String(text)) + after == out + Word(order, LengthWord(text)) + (text + tail)
  {
    hide Word, Utf8, Padding, Zeros;
    var head := out + Word(order, LengthWord(text));
    var zeros := Zeros(Padding(|head + text + [0]|));
    tail := [0] + zeros + after;
    assert Put(order, out, String(text)) == head + text + [0] + zeros;
    hide Put;
    Regrouped(head, text, [0], zeros, after);
  }

  lemma Regrouped(a: seq<Byte>, b: seq<Byte>, c: seq<Byte>, d: seq<Byte>, e: seq<Byte>)
    ensures a + b + c + d + e == a + (b + (c + d + e))
  {
  }

  /**
    * What is written: a number's word; a string's length counted with its terminator, its bytes, the terminator, and
    * zeros up to the next word.
    */
  lemma ArgumentBytes(order: Order, out: seq<Byte>, a: Argument)
    ensures var b, at := Put(order, out, a), |out| + 4;
            && b[..at] == out + Word(order, if a.Number? then a.value
                                            else if |a.text| + 1 < WORD then |a.text| + 1 else 1)
            && (a.Number? ==> |b| == at)
            && (a.String? ==>
                  && at + |a.text| < |b| < at + |a.text| + 5
                  && b[at..at + |a.text|] == a.text && forall i :: at + |a.text| <= i < |b| ==> b[i] == 0)
  {
    hide Word, Utf8;
  }

  /** A string reads back as itself exactly when its length and a terminator fit the length word. */
  lemma TextAt(order: Order, out: seq<Byte>, text: Text, after: seq<Byte>)
    ensures ReadText(order, Put(order, out, String(text)) + after, |out|) == Some(text) <==> |text| + 1 <= U32_MAX
  {
    hide Word, WordOf, Utf8, Put;
    var tail := TextLaidOut(order, out, text, after);
    var body := out + Word(order, LengthWord(text)) + (text + tail);
    WordAt(order, out, LengthWord(text), text + tail);
    assert body[|out| + 4..|out| + 4 + |text|] == text;
  }

  predicate Fits(a: Argument) { a.String? ==> |a.text| + 1 <= U32_MAX }

  /** What reading an argument of its kind at an offset gives. */
  function ReadAs(order: Order, body: seq<Byte>, at: nat, a: Argument): Option<Argument>
    requires at <= |body|
  {
    match a
    case Number(_) => (match ReadWord(order, body[at..]) case Some(v) => Some(Number(v)) case None => None)
    case String(_) => (match ReadText(order, body, at) case Some(t) => Some(String(t)) case None => None)
  }

  /** Any list of arguments reads back argument by argument, each where the ones before it end. */
  lemma {:induction false} ArgumentsReadBack(order: Order, out: seq<Byte>, args: seq<Argument>, i: nat)
    requires i < |args|
    ensures var at := |PutAll(order, out, args[..i])|;
            && at <= |PutAll(order, out, args)|
            && (ReadAs(order, PutAll(order, out, args), at, args[i]) == Some(args[i]) <==> Fits(args[i]))
            && (|out| % 4 == 0 ==> at % 4 == 0)
    decreases |args|
  {
    var before := PutAll(order, out, args[..i]);
    var upto := Put(order, before, args[i]);
    assert args[..i + 1][..i] == args[..i];
    assert PutAll(order, out, args[..i + 1]) == upto;
    PutAllGrows(order, out, args, i + 1);
    hide Put, PutAll, ReadAs;
    var whole := PutAll(order, out, args);
    var after := whole[|upto|..];
    assert whole == upto + after;
    ArgumentAt(order, before, args[i], after);
  }

  lemma ArgumentAt(order: Order, before: seq<Byte>, a: Argument, after: seq<Byte>)
    ensures ReadAs(order, Put(order, before, a) + after, |before|, a) == Some(a) <==> Fits(a)
  {
    match a {
      case Number(value) =>
        hide Word, WordOf;
        WordAt(order, before, value, after);
      case String(text) =>
        hide Put, ReadText;
        TextAt(order, before, text, after);
    }
  }

  lemma {:induction false} PutAllGrows(order: Order, out: seq<Byte>, args: seq<Argument>, i: nat)
    requires i <= |args|
    ensures PutAll(order, out, args[..i]) <= PutAll(order, out, args)
    decreases |args|
  {
    if i == |args| {
      assert args[..i] == args;
    } else {
      PutAllGrows(order, out, args[..|args| - 1], i);
      assert args[..|args| - 1][..i] == args[..i];
    }
  }

  /** A final number is the last four bytes, whatever strings come before it. */
  lemma TrailingIsTheLastNumber(order: Order, out: seq<Byte>, args: seq<Argument>, v: U32)
    ensures Trailing(order, PutAll(order, out, args + [Number(v)])) == Some(v)
  {
    assert (args + [Number(v)])[..|args + [Number(v)]| - 1] == args;
    var before := PutAll(order, out, args);
    WordAt(order, before, v, []);
    assert before + Word(order, v) + [] == before + Word(order, v);
  }
}
