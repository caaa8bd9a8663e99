/** How a command text and a MATLAB object become the frames of one message, and back:
    CommandSocket.sendObject and receiveObject, and the variant in serialization_helper.m. */
module Framing {
  import opened Native

  /** MATLAB values, as far as this protocol looks into them.  `Null` is [], `EmptyArray` any
      other empty array, `Opaque` any other nonempty value. */
  datatype Value =
    | Null
    | EmptyArray(id: nat)
    | Flag(b: bool)
    | Text(s: string)
    | Names(names: set<string>)
    | Struct(fields: seq<(string, Value)>)
    | Opaque(id: nat)

  predicate IsEmpty(v: Value) {
    match v
    case Null => true
    case EmptyArray(_) => true
    case Text(s) => s == ""
    case Names(names) => names == {}
    case _ => false
  }

  /** getByteStreamFromArray and getArrayFromByteStream; None stands for an exception. */
  datatype Codec = Codec(ser: Value -> Option<Frame>, de: Frame -> Option<Value>) {
    /** Deserializing inverts serializing, and no byte stream is empty. */
    ghost predicate Valid() {
      forall v | ser(v).Some? :: ser(v).value != [] && de(ser(v).value) == Some(v)
    }
  }

  /** uint8(text): character codes above 255 saturate. */
  function Bytes(text: string): (f: Frame)
    ensures |f| == |text|
  {
    seq(|text|, i requires 0 <= i < |text| => if text[i] as int > 255 then 255 else text[i] as int)
  }

  /** char(frame) */
  function Chars(f: Frame): (text: string)
    ensures |text| == |f|
  {
    seq(|f|, i requires 0 <= i < |f| => f[i] as char)
  }

  ghost predicate SingleByte(text: string) {
    forall i | 0 <= i < |text| :: text[i] as int <= 255
  }

  /** A text survives the trip through a frame and a buffer exactly when it fits the buffer and
      has no character above code 255. */
  lemma TextRoundTrip(text: string, r: nat)
    ensures Chars(Cut(Bytes(text), r)) == text <==> |text| <= r && SingleByte(text)
  {
    var back := Chars(Cut(Bytes(text), r));
    if |text| <= r {
      assert forall i | 0 <= i < |text| :: back[i] == (if text[i] as int > 255 then 255 as char else text[i]);
      if back == text {
        forall i | 0 <= i < |text| ensures text[i] as int <= 255 { assert back[i] == text[i]; }
      }
    }
  }

  /** CommandSocket.sendObject: one frame, two frames, or (None) an exception, raised either by
      the serializer or by the row check that rejects uint8('') when there is nothing to send. */
  function Encode(c: Codec, data: Value, text: string): (m: Option<Message>)
    ensures m.Some? ==> |m.value| <= 2
  {
    match if IsEmpty(data) then Some([]) else c.ser(data)
    case None => None
    case Some(stream) =>
      if text != "" && stream != [] then Some([Bytes(text), stream])
      else if text != "" then Some([Bytes(text)])
      else if stream != [] then Some([stream])
      else None
  }

  /** On the wire: the text first, one byte a character, then the byte stream of a nonempty object; only
      one of them when the other is empty. */
  lemma WireFormat(c: Codec, data: Value, text: string)
    requires c.Valid() && SingleByte(text)
    ensures data == Null || data.EmptyArray? || data == Text("") || data == Names({}) ==>
              match Encode(c, data, text)
              case None => text == ""
              case Some(m) =>
                && text != "" && |m| == 1 && |m[0]| == |text|
                && forall i | 0 <= i < |text| :: m[0][i] == text[i] as int
    ensures !(data == Null || data.EmptyArray? || data == Text("") || data == Names({})) ==>
              match c.ser(data)
              case None => Encode(c, data, text) == None
              case Some(stream) =>
                var m := Encode(c, data, text);
                && m.Some? && m.value[|m.value| - 1] == stream
                && |m.value| == (if text == "" then 1 else 2)
                && (text != "" ==>
                      |m.value[0]| == |text| && forall i | 0 <= i < |text| :: m.value[0][i] == text[i] as int)
  {
    assert IsEmpty(data) <==> data == Null || data.EmptyArray? || data == Text("") || data == Names({});
  }

  /** CommandSocket.receiveObject, once its one or two frames have been read. */
  function Decode(c: Codec, frames: seq<Frame>): (Value, string)
    requires 1 <= |frames| <= 2
  {
    (if |frames| == 1 || frames[1] == [] then Null
     else match c.de(frames[1]) case Some(v) => v case None => Null,
     Chars(frames[0]))
  }

  /** sendObject then receiveObject through a buffer of r bytes.  A nonempty text comes back with
      its object ([] for any empty one); with no text the byte stream lands in the text slot; and
      an empty object with no text cannot be sent at all.  So the trip is faithful exactly for a
      nonempty text with an object that is nonempty or []. */
  lemma FramingRoundTrip(c: Codec, data: Value, text: string, r: nat)
    requires c.Valid() && SingleByte(text) && |text| <= r
    requires IsEmpty(data) || (c.ser(data).Some? && |c.ser(data).value| <= r)
    ensures Encode(c, data, text).None? <==> IsEmpty(data) && text == ""
    ensures text != "" ==>
              Decode(c, CutAll(Encode(c, data, text).value, r)) == (if IsEmpty(data) then Null else data, text)
    ensures text == "" && !IsEmpty(data) ==>
              Decode(c, CutAll(Encode(c, data, text).value, r)) == (Null, Chars(c.ser(data).value))
    ensures Encode(c, data, text).Some? && Decode(c, CutAll(Encode(c, data, text).value, r)) == (data, text)
            <==> text != "" && (!IsEmpty(data) || data == Null)
  {
    TextRoundTrip(text, r);
  }

  /** The helper's sendObject: the object is always serialized, the text frame is optional. */
  function HelperEncode(c: Codec, data: Value, text: string): Option<Message> {
    match c.ser(data)
    case None => None
    case Some(stream) => Some(if text != "" then [Bytes(text), stream] else [stream])
  }

  /** The helper's receiveObject: a lone frame is the object.  When deserializing fails the object
      stays []. */
  function HelperDecode(c: Codec, frames: seq<Frame>): (Value, string)
    requires 1 <= |frames| <= 2
  {
    var stream := frames[|frames| - 1];
    (match c.de(stream) case Some(v) => v case None => Null,
     if |frames| == 2 then Chars(frames[0]) else "")
  }

  /** The helper's framing returns every object, empty or not, with every text, empty or not. */
  lemma HelperRoundTrip(c: Codec, data: Value, text: string, r: nat)
    requires c.Valid() && c.ser(data).Some?
    requires SingleByte(text) && |text| <= r && |c.ser(data).value| <= r
    ensures HelperEncode(c, data, text).Some?
    ensures HelperDecode(c, CutAll(HelperEncode(c, data, text).value, r)) == (data, text)
  {
    TextRoundTrip(text, r);
  }
}
