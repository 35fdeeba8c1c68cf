/**
 The IPP Print-Job request as bytes, and a reader for them after the grammar in sections 3.1.1 to 3.1.4
 of RFC 8010: what is built is read back whole, whatever bytes the document holds.
 */
module Ipp {
  import opened Common

  const TAG_OPERATION_ATTRS: Byte := 0x01
  const TAG_END_OF_ATTRS: Byte := 0x03
  const FIRST_VALUE_TAG: Byte := 0x10

  const VTAG_NAME_WITHOUT_LANGUAGE: Byte := 0x42
  const VTAG_URI: Byte := 0x45
  const VTAG_CHARSET: Byte := 0x47
  const VTAG_NATURAL_LANGUAGE: Byte := 0x48
  const VTAG_MIME_MEDIA_TYPE: Byte := 0x49

  const MAX_U16 := 0x1_0000
  const MAX_U32 := 0x1_0000_0000

  datatype Attribute = Attribute(tag: Byte, name: seq<Byte>, value: seq<Byte>)

  datatype Group = Group(tag: Byte, attributes: seq<Attribute>)

  datatype Message = Message(version: seq<Byte>, operation: int, requestId: int, groups: seq<Group>, data: seq<Byte>)

  // ----- encoding -----

  function U16(n: nat): (b: seq<Byte>)
    requires n < MAX_U16
    ensures |b| == 2 && ReadU16(b) == n
  {
    [n / 256, n % 256]
  }

  function ReadU16(b: seq<Byte>): nat
    requires |b| >= 2
  {
    (b[0] as nat) * 256 + b[1] as nat
  }

  function U32(n: nat): (b: seq<Byte>)
    requires n < MAX_U32
    ensures |b| == 4 && ReadU32(b) == n
  {
    var high, low := n / MAX_U16, n % MAX_U16;
    var b := U16(high) + U16(low);
    assert b[..2] == U16(high) && b[2..] == U16(low);
    b
  }

  function ReadU32(b: seq<Byte>): nat
    requires |b| >= 4
  {
    ReadU16(b[..2]) * MAX_U16 + ReadU16(b[2..])
  }

  predicate Fits(a: Attribute) {
    a.tag >= FIRST_VALUE_TAG && |a.name| < MAX_U16 && |a.value| < MAX_U16
  }

  /** Value tag, name length, name, value length, value. */
  function AttrValuePair(a: Attribute): seq<Byte>
    requires Fits(a)
  {
    [a.tag] + U16(|a.name|) + a.name + U16(|a.value|) + a.value
  }

  function EncodeAttributes(attributes: seq<Attribute>): seq<Byte>
    requires forall a :: a in attributes ==> Fits(a)
  {
    if attributes == [] then []
    else EncodeAttributes(attributes[..|attributes| - 1]) + AttrValuePair(attributes[|attributes| - 1])
  }

  // ----- reading -----

  /** One attribute-with-one-value: 1 + 2 + name + 2 + value bytes. */
  function ReadAttribute(b: seq<Byte>): Option<(Attribute, seq<Byte>)> {
    if |b| < 3 then None
    else
      var n := ReadU16(b[1..3]);
      if |b| < 5 + n then None
      else
        var v := ReadU16(b[3 + n..5 + n]);
        if |b| < 5 + n + v then None
        else Some((Attribute(b[0], b[3..3 + n], b[5 + n..5 + n + v]), b[5 + n + v..]))
  }

  /** Attributes up to the next delimiter tag. */
  function ReadAttributes(b: seq<Byte>): (r: Option<(seq<Attribute>, seq<Byte>)>)
    ensures r.Some? ==> |r.value.1| <= |b|
    decreases |b|
  {
    if b == [] then None
    else if b[0] < FIRST_VALUE_TAG then Some(([], b))
    else
      match ReadAttribute(b)
      case None => None
      case Some((a, rest)) =>
        match ReadAttributes(rest)
        case None => None
        case Some((more, left)) => Some(([a] + more, left))
  }

  /** Attribute groups up to the end-of-attributes tag; everything after that tag is the document. */
  function ReadGroups(b: seq<Byte>): Option<(seq<Group>, seq<Byte>)>
    decreases |b|
  {
    if b == [] then None
    else if b[0] == TAG_END_OF_ATTRS then Some(([], b[1..]))
    else if b[0] >= FIRST_VALUE_TAG then None
    else
      match ReadAttributes(b[1..])
      case None => None
      case Some((attributes, rest)) =>
        match ReadGroups(rest)
        case None => None
        case Some((groups, data)) => Some(([Group(b[0], attributes)] + groups, data))
  }

  function ReadMessage(b: seq<Byte>): Option<Message> {
    if |b| < 8 then None
    else
      match ReadGroups(b[8..])
      case None => None
      case Some((groups, data)) => Some(Message(b[..2], ReadU16(b[2..4]), ReadU32(b[4..8]), groups, data))
  }

  // ----- what is built is read back -----

  lemma AttributeRoundTrip(a: Attribute, rest: seq<Byte>)
    requires Fits(a)
    ensures ReadAttribute(AttrValuePair(a) + rest) == Some((a, rest))
  {
    var n, v := |a.name|, |a.value|;
    var b := AttrValuePair(a) + rest;
    assert b[1..3] == U16(n);
    assert b[3..3 + n] == a.name;
    assert b[3 + n..5 + n] == U16(v);
    assert b[5 + n..5 + n + v] == a.value;
    assert b[5 + n + v..] == rest;
  }

  lemma {:induction false} AttributesRoundTrip(attributes: seq<Attribute>, tail: seq<Byte>)
    requires forall a :: a in attributes ==> Fits(a)
    requires tail != [] && tail[0] < FIRST_VALUE_TAG
    ensures ReadAttributes(EncodeAttributes(attributes) + tail) == Some((attributes, tail))
    decreases |attributes|
  {
    hide ReadAttribute, ReadAttributes, AttrValuePair, Fits;
    if attributes == [] {
      assert EncodeAttributes(attributes) + tail == tail;
      ReadNoMore(tail);
    } else {
      var first, rest := attributes[0], attributes[1..];
      assert attributes == [first] + rest;
      hide EncodeAttributes;
      EncodeFromFront(first, rest);
      AttributesRoundTrip(rest, tail);
      var b, left := EncodeAttributes(attributes) + tail, EncodeAttributes(rest) + tail;
      assert b == AttrValuePair(first) + left;
      AttributeRoundTrip(first, left);
      StartsWithTag(first);
      ReadOneMore(b, first, left, rest, tail);
    }
  }

  lemma ReadNoMore(tail: seq<Byte>)
    requires tail != [] && tail[0] < FIRST_VALUE_TAG
    ensures ReadAttributes(tail) == Some(([], tail))
  {
  }

  lemma ReadOneMore(b: seq<Byte>, a: Attribute, left: seq<Byte>, more: seq<Attribute>, tail: seq<Byte>)
    requires b != [] && b[0] >= FIRST_VALUE_TAG && ReadAttribute(b) == Some((a, left))
    requires ReadAttributes(left) == Some((more, tail))
    ensures ReadAttributes(b) == Some(([a] + more, tail))
  {
    hide ReadAttribute;
  }

  lemma StartsWithTag(a: Attribute)
    requires Fits(a)
    ensures AttrValuePair(a) != [] && AttrValuePair(a)[0] == a.tag >= FIRST_VALUE_TAG
  {
  }

  /** Encoding appends to the end of the buffer; reading starts at the front. */
  lemma {:induction false} EncodeFromFront(first: Attribute, rest: seq<Attribute>)
    requires Fits(first) && forall a :: a in rest ==> Fits(a)
    ensures EncodeAttributes([first] + rest) == AttrValuePair(first) + EncodeAttributes(rest)
    decreases |rest|
  {
    hide AttrValuePair;
    var all := [first] + rest;
    if rest == [] {
      assert all[..0] == [] && all[0] == first;
    } else {
      var n := |rest| - 1;
      assert all[..|all| - 1] == [first] + rest[..n];
      EncodeFromFront(first, rest[..n]);
    }
  }

  /** A request: header, one operation group, the end tag, the document. */
  function Encode(version: seq<Byte>, operation: nat, requestId: nat, attributes: seq<Attribute>,
                  data: seq<Byte>): seq<Byte>
    requires |version| == 2 && operation < MAX_U16 && requestId < MAX_U32
    requires forall a :: a in attributes ==> Fits(a)
  {
    version + U16(operation) + U32(requestId) + [TAG_OPERATION_ATTRS]
    + EncodeAttributes(attributes) + [TAG_END_OF_ATTRS] + data
  }

  /** Any attributes and any document, tag bytes included, come back as they were put in. */
  lemma MessageRoundTrip(version: seq<Byte>, operation: nat, requestId: nat, attributes: seq<Attribute>,
                         data: seq<Byte>)
    requires |version| == 2 && operation < MAX_U16 && requestId < MAX_U32
    requires forall a :: a in attributes ==> Fits(a)
    ensures ReadMessage(Encode(version, operation, requestId, attributes, data))
         == Some(Message(version, operation, requestId, [Group(TAG_OPERATION_ATTRS, attributes)], data))
  {
    hide ReadAttributes, EncodeAttributes, ReadU16, ReadU32;
    var b := Encode(version, operation, requestId, attributes, data);
    var tail := [TAG_END_OF_ATTRS] + data;
    assert b[..2] == version && b[2..4] == U16(operation) && b[4..8] == U32(requestId);
    assert b[8..] == [TAG_OPERATION_ATTRS] + (EncodeAttributes(attributes) + tail);
    assert b[8..][1..] == EncodeAttributes(attributes) + tail;
    AttributesRoundTrip(attributes, tail);
    assert tail[1..] == data;
    assert ReadGroups(tail) == Some(([], data));
    assert [Group(TAG_OPERATION_ATTRS, attributes)] + [] == [Group(TAG_OPERATION_ATTRS, attributes)];
  }

  // ----- the client -----

  const IPP_VERSION: seq<Byte> := [2, 0]
  const OP_PRINT_JOB := 2

  /** The six operation attributes of a print job for the printer at a URI path. */
  function PrintJobAttributes(path: string): (attributes: seq<Attribute>)
    requires IsAscii(path)
    ensures |attributes| == 6
  {
    [Attribute(VTAG_CHARSET, Ascii("attributes-charset"), Ascii("utf-8")),
     Attribute(VTAG_NATURAL_LANGUAGE, Ascii("attributes-natural-language"), Ascii("en-us")),
     Attribute(VTAG_URI, Ascii("printer-uri"), Ascii("ipp://localhost" + path)),
     Attribute(VTAG_NAME_WITHOUT_LANGUAGE, Ascii("requesting-user-name"), Ascii("baker")),
     Attribute(VTAG_NAME_WITHOUT_LANGUAGE, Ascii("job-name"), Ascii("Bakery Receipt")),
     Attribute(VTAG_MIME_MEDIA_TYPE, Ascii("document-format"), Ascii("application/octet-stream"))]
  }

  /** What struct and the ASCII codec accept. */
  predicate Encodable(path: string, requestId: nat) {
    IsAscii(path) && |"ipp://localhost" + path| < MAX_U16 && requestId < MAX_U32
  }

  lemma PrintJobAttributesFit(path: string)
    requires IsAscii(path) && |"ipp://localhost" + path| < MAX_U16
    ensures forall a :: a in PrintJobAttributes(path) ==> Fits(a)
  {
  }

  /** Appends the attributes to the buffer one after another. */
  method AppendAttributes(attributes: seq<Attribute>) returns (buf: seq<Byte>)
    requires forall a :: a in attributes ==> Fits(a)
    ensures buf == EncodeAttributes(attributes)
  {
    hide AttrValuePair;
    buf := [];
    for i := 0 to |attributes|
      invariant buf == EncodeAttributes(attributes[..i])
    {
      assert attributes[..i + 1][..i] == attributes[..i];
      buf := buf + AttrValuePair(attributes[i]);
    }
    assert attributes[..|attributes|] == attributes;
  }

  // ----- the bytes on the wire -----

  /** Tag, big-endian lengths, name and value, as in section 3.1.4 of RFC 8010. */
  lemma AttributeBytes(a: Attribute)
    requires Fits(a)
    ensures AttrValuePair(a) == [a.tag, |a.name| / 0x100, |a.name| % 0x100] + a.name
                                + [|a.value| / 0x100, |a.value| % 0x100] + a.value
  {
  }

  /** The six attributes with their value tags: charset, language, URI, two names and a media type. */
  lemma PrintJobAttributesAre(path: string)
    requires IsAscii(path)
    ensures PrintJobAttributes(path)
            == [Attribute(0x47, Ascii("attributes-charset"), Ascii("utf-8")),
                Attribute(0x48, Ascii("attributes-natural-language"), Ascii("en-us")),
                Attribute(0x45, Ascii("printer-uri"), Ascii("ipp://localhost" + path)),
                Attribute(0x42, Ascii("requesting-user-name"), Ascii("baker")),
                Attribute(0x42, Ascii("job-name"), Ascii("Bakery Receipt")),
                Attribute(0x49, Ascii("document-format"), Ascii("application/octet-stream"))]
  {
  }

  /** Version 2.0, print-job, the request id big-endian, the group tag 1 and, after the attributes, the end tag 3. */
  lemma RequestBytes(path: string, requestId: nat, document: seq<Byte>)
    requires Encodable(path, requestId) && forall a :: a in PrintJobAttributes(path) ==> Fits(a)
    ensures Encode(IPP_VERSION, OP_PRINT_JOB, requestId, PrintJobAttributes(path), document)
            == [2, 0, 0, 2, requestId / 0x1_0000 / 0x100, requestId / 0x1_0000 % 0x100,
                requestId % 0x1_0000 / 0x100, requestId % 0x1_0000 % 0x100, 1]
               + EncodeAttributes(PrintJobAttributes(path)) + [3] + document
  {
    hide PrintJobAttributes, EncodeAttributes;
    FourBytes(requestId);
    assert IPP_VERSION + U16(OP_PRINT_JOB) == [2, 0, 0, 2];
  }

  lemma FourBytes(n: nat)
    requires n < MAX_U32
    ensures U32(n) == [n / 0x1_0000 / 0x100, n / 0x1_0000 % 0x100, n % 0x1_0000 / 0x100, n % 0x1_0000 % 0x100]
  {
  }

  class IppClient {
    var nextRequestId: nat

    constructor ()
      ensures nextRequestId == 1
    {
      nextRequestId := 1;
    }

    /** Takes the next request id and builds the request; None when a field cannot be encoded. */
    method BuildPrintJobRequest(document: seq<Byte>, path: string) returns (request: Option<seq<Byte>>)
      modifies this
      ensures nextRequestId == old(nextRequestId) + 1
      ensures request.Some? <==> Encodable(path, old(nextRequestId))
      ensures request.Some? ==> IsAscii(path) && forall a :: a in PrintJobAttributes(path) ==> Fits(a)
      ensures request.Some? ==>
                request.value
                == Encode(IPP_VERSION, OP_PRINT_JOB, old(nextRequestId), PrintJobAttributes(path), document)
      ensures request.Some? ==>
                ReadMessage(request.value) == Some(Message(IPP_VERSION, OP_PRINT_JOB, old(nextRequestId),
                                                           [Group(TAG_OPERATION_ATTRS, PrintJobAttributes(path))],
                                                           document))
    {
      var requestId := nextRequestId;
      nextRequestId := nextRequestId + 1;
      if !Encodable(path, requestId) {
        return None;
      }
      hide ReadMessage, EncodeAttributes, AttrValuePair;
      var attributes := PrintJobAttributes(path);
      PrintJobAttributesFit(path);
      var buf := IPP_VERSION + U16(OP_PRINT_JOB) + U32(requestId);
      buf := buf + [TAG_OPERATION_ATTRS];
      var pairs := AppendAttributes(attributes);
      buf := buf + pairs;
      buf := buf + [TAG_END_OF_ATTRS];
      buf := buf + document;
      MessageRoundTrip(IPP_VERSION, OP_PRINT_JOB, requestId, attributes, document);
      return Some(buf);
    }
  }

  /** Status code and request id of a response; None when it is too short for a header. */
  function ParseStatus(response: seq<Byte>): Option<(nat, nat)> {
    if |response| < 8 then None else Some((ReadU16(response[2..4]), ReadU32(response[4..8])))
  }

  /** A response that answers a request with a status is read as that status and that request id. */
  lemma StatusRoundTrip(version: seq<Byte>, status: nat, requestId: nat, rest: seq<Byte>)
    requires |version| == 2 && status < MAX_U16 && requestId < MAX_U32
    ensures ParseStatus(version + U16(status) + U32(requestId) + rest) == Some((status, requestId))
  {
    var b := version + U16(status) + U32(requestId) + rest;
    assert b[2..4] == U16(status) && b[4..8] == U32(requestId);
  }
}
