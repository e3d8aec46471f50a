/** The install parameters of an app: tag-length-value entries, of which the derivation path is kept. */
module InstallParams {
  import opened Arith
  import opened Bytes
  import opened Wrappers

  const TAG_DERIVEPATH := 0x04

  // ----- the encoding (definite lengths of section 8.1.3 of ITU-T X.690)

  datatype LengthForm = Short | OneByte | TwoBytes

  datatype Entry = Entry(tag: byte, form: LengthForm, value: seq<byte>)

  /** The form has room for the length. */
  predicate Encodable(e: Entry) {
    match e.form
    case Short => |e.value| < 0x80
    case OneByte => |e.value| < 0x100
    case TwoBytes => |e.value| < 0x10000
  }

  function EncodeLength(e: Entry): seq<byte>
    requires Encodable(e)
  {
    match e.form
    case Short => [|e.value|]
    case OneByte => [0x81, |e.value|]
    case TwoBytes => [0x82] + Be16(|e.value|)
  }

  function EncodeEntry(e: Entry): seq<byte>
    requires Encodable(e)
  {
    [e.tag] + EncodeLength(e) + e.value
  }

  function Encode(entries: seq<Entry>): seq<byte>
    requires forall e :: e in entries ==> Encodable(e)
  {
    if entries == [] then [] else EncodeEntry(entries[0]) + Encode(entries[1..])
  }

  /** The value of the last entry with the derivation path tag, or what was there before. */
  function LastPath(entries: seq<Entry>, before: seq<byte>): seq<byte> {
    if entries == [] then before
    else LastPath(entries[1..], if entries[0].tag == 4 then entries[0].value else before)
  }

  // ----- the parser

  /** The header at an offset: its tag, the length it announces and where the value starts; None for
      an IndexError.  The two bytes of a long length are a slice, so they may be missing. */
  function HeaderAt(data: seq<byte>, offset: nat): (h: Option<(byte, nat, nat)>)
    ensures h.Some? ==> h.value.2 >= offset + 2
  {
    if offset + 1 >= |data| then None
    else
      var first := data[offset + 1];
      if first == 0x81 then
        if offset + 2 >= |data| then None else Some((data[offset], data[offset + 2], offset + 3))
      else if first == 0x82 then
        Some((data[offset], FromBytes(Slice(data, offset + 2, offset + 4)), offset + 4))
      else Some((data[offset], first, offset + 2))
  }

  /** `int.from_bytes(bytes, "big")` for any number of bytes. */
  function FromBytes(bytes: seq<byte>): nat {
    if bytes == [] then 0 else 256 * FromBytes(bytes[..|bytes| - 1]) + bytes[|bytes| - 1]
  }

  /** The path found from an offset on, given the one found before; None for an IndexError. */
  function PathFrom(data: seq<byte>, size: nat, offset: nat, path: seq<byte>): Option<seq<byte>>
    decreases Max(0, size - offset)
  {
    if offset >= size then Some(path)
    else
      match HeaderAt(data, offset)
      case None => None
      case Some((tag, length, start)) =>
        PathFrom(data, size, start + length, if tag == TAG_DERIVEPATH then Slice(data, start, start + length) else path)
  }

  /** The header bytes of an entry give its tag, its length and the start of its value. */
  lemma HeaderOfPrefix(data: seq<byte>, offset: nat, e: Entry)
    requires Encodable(e)
    requires offset + 1 + |EncodeLength(e)| <= |data|
    requires data[offset..offset + 1 + |EncodeLength(e)|] == [e.tag] + EncodeLength(e)
    ensures HeaderAt(data, offset) == Some((e.tag, |e.value|, offset + 1 + |EncodeLength(e)|))
  {
    var head := [e.tag] + EncodeLength(e);
    assert data[offset] == data[offset..offset + |head|][0] == e.tag;
    assert data[offset + 1] == data[offset..offset + |head|][1];
    match e.form
    case Short =>
    case OneByte =>
      assert data[offset + 2] == data[offset..offset + |head|][2];
    case TwoBytes =>
      var two := Slice(data, offset + 2, offset + 4);
      assert two == data[offset..offset + |head|][2..] == Be16(|e.value|);
      TwoDigits(two);
  }

  lemma TwoDigits(two: seq<byte>)
    requires |two| == 2
    ensures FromBytes(two) == FromBe16(two[0], two[1])
  {
    assert two[..1] == [two[0]] && two[..1][..0] == [];
    assert FromBytes(two[..1]) == two[0];
  }

  /** The entry at an offset is read whole. */
  lemma HeaderOfEntry(data: seq<byte>, offset: nat, e: Entry)
    requires Encodable(e) && offset + |EncodeEntry(e)| <= |data|
    requires data[offset..offset + |EncodeEntry(e)|] == EncodeEntry(e)
    ensures HeaderAt(data, offset).Some?
    ensures var (tag, length, start) := HeaderAt(data, offset).value;
      tag == e.tag && length == |e.value| && start + length == offset + |EncodeEntry(e)|
      && Slice(data, start, start + length) == e.value
  {
    SliceParts(data, offset, offset + |EncodeEntry(e)|, [e.tag] + EncodeLength(e), e.value);
    HeaderOfPrefix(data, offset, e);
    hide HeaderAt, EncodeLength;
  }

  /** One iteration of the loop consumes one entry. */
  lemma PathPastEntry(data: seq<byte>, offset: nat, e: Entry, path: seq<byte>)
    requires Encodable(e) && offset + |EncodeEntry(e)| <= |data|
    requires data[offset..offset + |EncodeEntry(e)|] == EncodeEntry(e)
    ensures PathFrom(data, |data|, offset, path)
      == PathFrom(data, |data|, offset + |EncodeEntry(e)|, if e.tag == TAG_DERIVEPATH then e.value else path)
  {
    assert |EncodeEntry(e)| > 0;
    HeaderOfEntry(data, offset, e);
    hide HeaderAt, EncodeEntry, EncodeLength, Slice, Encodable;
  }

  /** Parsing the encoding of any list of entries stays in range and finds the value of the last
      derivation path entry, or leaves what was there before. */
  lemma {:induction false} PathOfEncoding(data: seq<byte>, offset: nat, entries: seq<Entry>, path: seq<byte>)
    requires forall e :: e in entries ==> Encodable(e)
    requires offset <= |data| && data[offset..] == Encode(entries)
    ensures PathFrom(data, |data|, offset, path) == Some(LastPath(entries, path))
    decreases |entries|
  {
    hide EncodeEntry, Encodable;
    if entries == [] {
      assert offset == |data|;
    } else {
      var e := entries[0];
      SuffixParts(data, offset, EncodeEntry(e), Encode(entries[1..]));
      PathPastEntry(data, offset, e, path);
      hide PathFrom;
      PathOfEncoding(data, offset + |EncodeEntry(e)|, entries[1..], if e.tag == TAG_DERIVEPATH then e.value else path);
    }
  }

  /** The tag and the length of an entry; None for an IndexError. */
  method ReadHeader(data: seq<byte>, start: nat) returns (header: Option<(byte, nat, nat)>)
    ensures header == HeaderAt(data, start)
  {
    var offset := start;
    if offset >= |data| {
      return None;
    }
    var tag := data[offset];
    offset := offset + 1;
    if offset >= |data| {
      return None;
    }
    var length: nat := data[offset];
    offset := offset + 1;
    if length == 0x81 {
      if offset >= |data| {
        return None;
      }
      length := data[offset];
      offset := offset + 1;
    } else if length == 0x82 {
      length := FromBytes(Slice(data, offset, offset + 2));
      offset := offset + 2;
    }
    return Some((tag, length, offset));
  }

  /** The loop over the entries; None for an IndexError. */
  method DerivationPath(data: seq<byte>, symSize: nat) returns (r: Option<seq<byte>>)
    ensures r == PathFrom(data, symSize, 0, [])
  {
    hide HeaderAt, Slice;
    var path := [];
    var offset := 0;
    while offset < symSize
      invariant offset >= 0
      invariant PathFrom(data, symSize, 0, []) == PathFrom(data, symSize, offset, path)
      decreases Max(0, symSize - offset)
    {
      var header := ReadHeader(data, offset);
      if header.None? {
        return None;
      }
      var (tag, length, start) := header.value;
      if tag == TAG_DERIVEPATH {
        path := Slice(data, start, start + length);
      }
      offset := start + length;
    }
    return Some(path);
  }

  /** The derivation path of an app whose install parameters encode the entries. */
  method PathOfApp(entries: seq<Entry>) returns (path: seq<byte>)
    requires forall e :: e in entries ==> Encodable(e)
    ensures path == LastPath(entries, [])
  {
    PathOfEncoding(Encode(entries), 0, entries, []);
    var r := DerivationPath(Encode(entries), |Encode(entries)|);
    path := r.value;
  }
}
