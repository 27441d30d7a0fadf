/**
 * The SIGPROC filterbank header: the fixed table of typed fields, the encoder
 * that writes a header framed by HEADER_START / HEADER_END, and the decoder that
 * reads it back while counting the header's length (dada_fildb/sigproc.py).
 *
 * A header is one optional value per table entry, indexed by table position.
 * Values keep Python's dynamic typing, so that the encoder's type errors and the
 * decoder's habit of returning raw bytes for strings are part of the model.
 */
module SigprocHeader {
  import opened Wrappers
  import opened ByteCodec

  datatype Kind = StringKind | IntKind | DoubleKind

  /** The ordered `_type` table: field name and declared type, in the order the encoder writes. */
  const Types: Table := seq(20, i requires 0 <= i < 20 => TypeEntry(i))

  function TypeEntry(i: Field): (e: (string, Kind))
    ensures 1 <= |e.0| <= 80
  {
    match i
    case 0 => ("rawdatafile", StringKind)
    case 1 => ("source_name", StringKind)
    case 2 => ("machine_id", IntKind)
    case 3 => ("barycentric", IntKind)
    case 4 => ("pulsarcentric", IntKind)
    case 5 => ("telescope_id", IntKind)
    case 6 => ("src_raj", DoubleKind)
    case 7 => ("src_dej", DoubleKind)
    case 8 => ("az_start", DoubleKind)
    case 9 => ("za_start", DoubleKind)
    case 10 => ("data_type", IntKind)
    case 11 => ("fch1", DoubleKind)
    case 12 => ("foff", DoubleKind)
    case 13 => ("nchans", IntKind)
    case 14 => ("nbeams", IntKind)
    case 15 => ("ibeam", IntKind)
    case 16 => ("nbits", IntKind)
    case 17 => ("tstart", DoubleKind)
    case 18 => ("tsamp", DoubleKind)
    case 19 => ("nifs", IntKind)
  }

  const HEADER_START: string := "HEADER_START"
  const HEADER_END: string := "HEADER_END"

  /**
   * A field table like `_type`: 20 entries, each name 1 to 80 characters long
   * (so that `send_string` writes it and `get_string` reads it back). The
   * encoder and decoder take the table as a parameter t, standing for the
   * class attribute `_type`; Types is the table the source defines.
   */
  type Table = t: seq<(string, Kind)> | |t| == 20 && forall i :: 0 <= i < |t| ==> 1 <= |t[i].0| <= 80
    witness [("a", StringKind), ("b", StringKind), ("c", StringKind), ("d", StringKind), ("e", StringKind),
             ("f", StringKind), ("g", StringKind), ("h", StringKind), ("i", StringKind), ("j", StringKind),
             ("k", StringKind), ("l", StringKind), ("m", StringKind), ("n", StringKind), ("o", StringKind),
             ("p", StringKind), ("q", StringKind), ("r", StringKind), ("s", StringKind), ("t", StringKind)]

  /** A position in the table. */
  type Field = i: nat | i < 20

  const SOURCE_NAME: Field := 1
  const SRC_RAJ: Field := 6
  const SRC_DEJ: Field := 7
  const AZ_START: Field := 8
  const ZA_START: Field := 9
  const FCH1: Field := 11
  const FOFF: Field := 12
  const NCHANS: Field := 13
  const NBITS: Field := 16
  const TSTART: Field := 17
  const TSAMP: Field := 18
  const NIFS: Field := 19

  function Name(t: Table, i: Field): (s: string)
    ensures 1 <= |s| <= 80
  {
    t[i].0
  }

  function KindOf(t: Table, i: Field): Kind {
    t[i].1
  }

  /** The names are distinct ASCII strings, and none of them is HEADER_END. */
  predicate UniqueNames(t: Table) {
    (forall i: Field :: IsAscii(Name(t, i)) && Name(t, i) != HEADER_END) &&
    (forall i: Field, j: Field :: i < j ==> Name(t, i) != Name(t, j))
  }

  lemma {:induction false} TypesUniqueNames()
    ensures UniqueNames(Types)
  {
    TypesAscii();
    TypesNotEnd();
    TypesDistinct();
  }

  lemma {:induction false} TypesAscii()
    ensures forall i: Field :: IsAscii(Name(Types, i))
  {
    TypesAsciiBelow5();
    TypesAsciiFrom5();
    TypesAsciiFrom10();
  }

  lemma {:induction false} TypesAsciiBelow5()
    ensures forall i: Field :: i < 5 ==> IsAscii(Name(Types, i))
  {
  }

  lemma {:induction false} TypesAsciiFrom5()
    ensures forall i: Field :: 5 <= i < 10 ==> IsAscii(Name(Types, i))
  {
  }

  lemma {:induction false} TypesAsciiFrom10()
    ensures forall i: Field :: 10 <= i ==> IsAscii(Name(Types, i))
  {
  }

  lemma {:induction false} TypesNotEnd()
    ensures forall i: Field :: Name(Types, i) != HEADER_END
  {
  }

  lemma {:induction false} TypesDistinct()
    ensures forall i: Field, j: Field :: i < j ==> Name(Types, i) != Name(Types, j)
  {
  }

  /** Eight bytes of an IEEE-754 double, kept uninterpreted. */
  type Blob8 = s: seq<byte> | |s| == 8 witness [0, 0, 0, 0, 0, 0, 0, 0]

  /**
   * A Python value held by a header attribute: a `str` (given by its UTF-8
   * encoding), a `bytes` object, an `int`, or a `float` (as its 8 packed bytes).
   */
  datatype Value = Text(utf8: seq<byte>) | Raw(data: seq<byte>) | Int(n: int) | Double(blob: Blob8)

  /** One optional value per table entry; None is Python's `None`. */
  type Header = s: seq<Option<Value>> | |s| == 20 witness seq(20, _ => None)

  const EmptyHeader: Header := [None, None, None, None, None, None, None, None, None, None,
                                None, None, None, None, None, None, None, None, None, None]

  // ---------------------------------------------------------------- encoder

  /** The exception a failed write raises: no `.encode()` on the value, or `struct.pack` refusing it. */
  datatype EncodeError = AttributeError | StructError

  /** What a sequence of writes put into the file, and the exception that stopped it, if any. */
  datatype Written = Written(bytes: seq<byte>, error: Option<EncodeError>)

  const Nothing: Written := Written([], None)

  /** Write a, then (unless a raised) b. */
  function Then(a: Written, b: Written): Written {
    if a.error.Some? then a else Written(a.bytes + b.bytes, b.error)
  }

  lemma {:induction false} ThenAssoc(a: Written, b: Written, c: Written)
    ensures Then(Then(a, b), c) == Then(a, Then(b, c))
  {
  }

  /** The value a name string is: a `str`. */
  function NameText(s: string): Value {
    Text(Ascii(s))
  }

  /**
   * `send_string`: a 4-byte length, then the encoded bytes, which read back
   * as the length and the string; a value that is not a str has no `encode`.
   */
  function SendString(val: Value): (r: Written)
    ensures r.error.None? <==> Fits(StringKind, val)
    ensures !val.Text? ==> r.error == Some(AttributeError)
    ensures r.error.Some? ==> r.bytes == []
    ensures r.error.None? ==>
      |r.bytes| == |val.utf8| + 4 && UnpackInt32(r.bytes[..4]) == |val.utf8| && r.bytes[4..] == val.utf8
  {
    if !val.Text? then Written([], Some(AttributeError))
    else if !InInt32(|val.utf8|) then Written([], Some(StructError))
    else
      Int32RoundTrip(|val.utf8|);
      assert (PackInt32(|val.utf8|) + val.utf8)[..4] == PackInt32(|val.utf8|);
      Written(PackInt32(|val.utf8|) + val.utf8, None)
  }

  /**
   * `struct.pack(_type[name][0], val)`: 'i' for int fields, 'd' for double
   * fields; what it packs unpacks to the value, and `struct.error` is raised
   * for anything else.
   */
  function PackNumber(kind: Kind, val: Value): (r: Written)
    requires kind != StringKind
    ensures r.error.None? <==> Fits(kind, val)
    ensures r.error.None? ==> |r.bytes| == Width(kind) && NumberValue(kind, r.bytes) == val
    ensures r.error.Some? ==> r == Written([], Some(StructError))
  {
    match kind
    case IntKind =>
      if val.Int? && InInt32(val.n) then Int32RoundTrip(val.n); Written(PackInt32(val.n), None)
      else Written([], Some(StructError))
    case DoubleKind =>
      if val.Double? then Written(val.blob, None)
      else Written([], Some(StructError))
  }

  /** `send_num`: the field's name, then its packed number; a value that does not pack leaves the name written. */
  function SendNum(t: Table, i: Field, val: Value): (r: Written)
    requires KindOf(t, i) != StringKind
    ensures r.error.None? <==> Fits(KindOf(t, i), val)
    ensures r.error.Some? ==> r == Written(StringBytes(Name(t, i)), Some(StructError))
    ensures r.error.None? ==> r.bytes == EntryBytes(t, i, val)
  {
    assert |Ascii(Name(t, i))| <= 80;
    Then(SendString(NameText(Name(t, i))), PackNumber(KindOf(t, i), val))
  }

  /** `send`: nothing for an absent field; otherwise its name and its typed value, which must fit the type. */
  function Send(t: Table, h: Header, i: Field): (r: Written)
    ensures h[i].None? ==> r == Nothing
    ensures r.error.None? <==> h[i].None? || Fits(KindOf(t, i), h[i].value)
  {
    match h[i]
    case None => Nothing
    case Some(v) =>
      if KindOf(t, i) == StringKind then Then(SendString(NameText(Name(t, i))), SendString(v))
      else SendNum(t, i, v)
  }

  /**
   * The loop of `filterbank_header` over the table entries from k on: it
   * raises nothing if and only if every present field from k on fits its type.
   */
  function SendFrom(t: Table, h: Header, k: nat): (r: Written)
    requires k <= 20
    ensures r.error.None? <==> EncodableFrom(t, h, k)
    decreases 20 - k
  {
    if k == 20 then Nothing
    else
      assert EncodableFrom(t, h, k) <==> EncodableFrom(t, h, k + 1) && (h[k].Some? ==> Fits(KindOf(t, k), h[k].value));
      Then(Send(t, h, k), SendFrom(t, h, k + 1))
  }

  /**
   * `filterbank_header`: HEADER_START, every field in table order, HEADER_END.
   * It raises nothing exactly when every present value fits its type; the
   * output always starts with the HEADER_START string, and ends with the
   * HEADER_END string when nothing raised.
   */
  function FilterbankHeader(t: Table, h: Header): (r: Written)
    ensures r.error.None? <==> Encodable(t, h)
    ensures |r.bytes| >= 16 && r.bytes[..16] == StringBytes(HEADER_START)
    ensures r.error.None? ==> |r.bytes| >= 30 && r.bytes[|r.bytes| - 14..] == StringBytes(HEADER_END)
  {
    MarkersWritable();
    Then(SendString(NameText(HEADER_START)), Then(SendFrom(t, h, 0), SendString(NameText(HEADER_END))))
  }

  /** A value the encoder can write for a field of the given kind. */
  predicate Fits(kind: Kind, v: Value) {
    match kind
    case StringKind => v.Text? && InInt32(|v.utf8|)
    case IntKind => v.Int? && InInt32(v.n)
    case DoubleKind => v.Double?
  }

  predicate EncodableFrom(t: Table, h: Header, k: nat) {
    forall i: Field :: k <= i && h[i].Some? ==> Fits(KindOf(t, i), h[i].value)
  }

  predicate Encodable(t: Table, h: Header) {
    EncodableFrom(t, h, 0)
  }

  /** What `send_string` writes for a short ASCII string: its length, then its characters. */
  function StringBytes(s: string): (bs: seq<byte>)
    requires |s| <= 80
    ensures |bs| == |s| + 4
  {
    PackInt32(|s|) + Ascii(s)
  }

  /** The bytes a fitting value is written as. */
  function ValueBytes(kind: Kind, v: Value): seq<byte>
    requires Fits(kind, v)
  {
    match kind
    case StringKind => PackInt32(|v.utf8|) + v.utf8
    case IntKind => PackInt32(v.n)
    case DoubleKind => v.blob
  }

  /** The bytes one present, fitting field is written as: its name, then its value. */
  function EntryBytes(t: Table, i: Field, v: Value): seq<byte>
    requires Fits(KindOf(t, i), v)
  {
    StringBytes(Name(t, i)) + ValueBytes(KindOf(t, i), v)
  }

  /** The table positions from k on whose value is present, in table order. */
  function Present(h: Header, k: nat): (ps: seq<Field>)
    requires k <= 20
    ensures forall j :: 0 <= j < |ps| ==> k <= ps[j] && h[ps[j]].Some?
    decreases 20 - k
  {
    if k == 20 then [] else if h[k].Some? then [k as Field] + Present(h, k + 1) else Present(h, k + 1)
  }

  /** Present lists the fields in strictly increasing table order, so each at most once. */
  lemma {:induction false} PresentSorted(h: Header, k: nat)
    requires k <= 20
    ensures forall j, j' :: 0 <= j < j' < |Present(h, k)| ==> Present(h, k)[j] < Present(h, k)[j']
    decreases 20 - k
  {
    if k < 20 {
      PresentSorted(h, k + 1);
      var rest := Present(h, k + 1);
      if h[k].Some? {
        var ps := Present(h, k);
        assert ps == [k as Field] + rest;
        forall j, j' | 0 <= j < j' < |ps|
          ensures ps[j] < ps[j']
        {
          assert ps[j'] == rest[j' - 1] && k + 1 <= rest[j' - 1];
          if j > 0 {
            assert ps[j] == rest[j - 1] < rest[j' - 1];
          } else {
            assert ps[j] == k;
          }
        }
      } else {
        assert Present(h, k) == rest;
      }
    }
  }

  /** Present lists exactly the present fields from k on. */
  lemma {:induction false} PresentComplete(h: Header, k: nat)
    requires k <= 20
    ensures forall i: Field :: k <= i ==> (h[i].Some? <==> i in Present(h, k))
    decreases 20 - k
  {
    if k < 20 {
      PresentComplete(h, k + 1);
    }
  }

  /** The entries of the listed fields, one after the other. */
  function Entries(t: Table, h: Header, ps: seq<Field>): seq<byte>
    requires forall j :: 0 <= j < |ps| ==> h[ps[j]].Some? && Fits(KindOf(t, ps[j]), h[ps[j]].value)
  {
    if ps == [] then [] else EntryBytes(t, ps[0], h[ps[0]].value) + Entries(t, h, ps[1..])
  }

  lemma {:induction false} SendFromEntries(t: Table, h: Header, k: nat)
    requires k <= 20 && EncodableFrom(t, h, k)
    ensures SendFrom(t, h, k) == Written(Entries(t, h, Present(h, k)), None)
    decreases 20 - k
  {
    if k < 20 {
      SendFromEntries(t, h, k + 1);
      if h[k].Some? {
        SendEntry(t, h, k);
        var ps := Present(h, k);
        assert ps[0] == k && ps[1..] == Present(h, k + 1);
      }
    }
  }

  /** A present field that fits its type is written as its entry bytes. */
  lemma {:induction false} SendEntry(t: Table, h: Header, k: Field)
    requires h[k].Some? && Fits(KindOf(t, k), h[k].value)
    ensures Send(t, h, k) == Written(EntryBytes(t, k, h[k].value), None)
  {
    assert |Ascii(Name(t, k))| <= 80;
  }

  /** Appending the writes a, then rest, to bytes already written. */
  lemma {:induction false} ThenStep(w: seq<byte>, a: Written, rest: Written)
    ensures Then(Written(w, None), Then(a, rest)) ==
      if a.error.Some? then Written(w + a.bytes, a.error) else Then(Written(w + a.bytes, None), rest)
  {
    if a.error.None? {
      assert w + (a.bytes + rest.bytes) == (w + a.bytes) + rest.bytes;
    }
  }

  /** The HEADER_START and HEADER_END markers are always writable. */
  lemma {:induction false} MarkersWritable()
    ensures SendString(NameText(HEADER_START)) == Written(StringBytes(HEADER_START), None)
    ensures SendString(NameText(HEADER_END)) == Written(StringBytes(HEADER_END), None)
  {
    assert |Ascii(HEADER_START)| == 12 && |Ascii(HEADER_END)| == 10;
  }

  /**
   * On a header whose present values fit their declared types, the encoder
   * writes HEADER_START, the present fields in table order (each as name then
   * value), and HEADER_END.
   */
  lemma {:induction false} FilterbankHeaderLayout(t: Table, h: Header)
    ensures Encodable(t, h) ==>
      FilterbankHeader(t, h).bytes ==
        StringBytes(HEADER_START) + Entries(t, h, Present(h, 0)) + StringBytes(HEADER_END)
  {
    var start, body, end := SendString(NameText(HEADER_START)), SendFrom(t, h, 0), SendString(NameText(HEADER_END));
    MarkersWritable();
    ThenStep([], start, Then(body, end));
    assert [] + start.bytes == start.bytes;
    if Encodable(t, h) {
      SendFromEntries(t, h, 0);
      ThenStep(start.bytes, body, end);
    }
  }

  // ---------------------------------------------------------------- encoder as the source runs it

  /** An output file opened for writing: what has been written to it so far. */
  class Sink {
    var written: seq<byte>

    constructor ()
      ensures written == []
    {
      written := [];
    }

    method Write(bs: seq<byte>)
      modifies this
      ensures written == old(written) + bs
    {
      written := written + bs;
    }
  }

  method WriteString(val: Value, f: Sink) returns (err: Option<EncodeError>)
    modifies f
    ensures f.written == old(f.written) + SendString(val).bytes && err == SendString(val).error
  {
    if !val.Text? {
      return Some(AttributeError);
    }
    if !InInt32(|val.utf8|) {
      return Some(StructError);
    }
    f.Write(PackInt32(|val.utf8|));
    f.Write(val.utf8);
    return None;
  }

  method WriteNum(t: Table, i: Field, val: Value, f: Sink) returns (err: Option<EncodeError>)
    requires KindOf(t, i) != StringKind
    modifies f
    ensures f.written == old(f.written) + SendNum(t, i, val).bytes && err == SendNum(t, i, val).error
  {
    err := WriteString(NameText(Name(t, i)), f);
    if err.Some? {
      return;
    }
    var packed := PackNumber(KindOf(t, i), val);
    if packed.error.Some? {
      return packed.error;
    }
    f.Write(packed.bytes);
  }

  method WriteField(t: Table, h: Header, i: Field, f: Sink) returns (err: Option<EncodeError>)
    modifies f
    ensures f.written == old(f.written) + Send(t, h, i).bytes && err == Send(t, h, i).error
  {
    if h[i].None? {
      return None;
    }
    if KindOf(t, i) == StringKind {
      err := WriteString(NameText(Name(t, i)), f);
      if err.None? {
        err := WriteString(h[i].value, f);
      }
    } else {
      err := WriteNum(t, i, h[i].value, f);
    }
  }

  /** The `for k in list(self._type.keys())` loop of `filterbank_header`, field by field into the sink. */
  method WriteFields(t: Table, h: Header, f: Sink) returns (err: Option<EncodeError>)
    modifies f
    ensures f.written == old(f.written) + SendFrom(t, h, 0).bytes && err == SendFrom(t, h, 0).error
  {
    ghost var target := Then(Written(f.written, None), SendFrom(t, h, 0));
    var k := 0;
    while k < 20
      invariant 0 <= k <= 20
      invariant Then(Written(f.written, None), SendFrom(t, h, k)) == target
    {
      ThenStep(f.written, Send(t, h, k), SendFrom(t, h, k + 1));
      err := WriteField(t, h, k, f);
      if err.Some? {
        return;
      }
      k := k + 1;
    }
    err := None;
  }

  /** `filterbank_header(fout)`: the header is appended to whatever the sink already holds. */
  method WriteHeader(t: Table, h: Header, f: Sink) returns (err: Option<EncodeError>)
    modifies f
    ensures f.written == old(f.written) + FilterbankHeader(t, h).bytes && err == FilterbankHeader(t, h).error
  {
    MarkersWritable();
    HeaderPieces(t, h);
    ghost var w0 := f.written;
    err := WriteString(NameText(HEADER_START), f);
    err := WriteFields(t, h, f);
    if err.Some? {
      AppendAssoc(w0, StringBytes(HEADER_START), SendFrom(t, h, 0).bytes);
      return;
    }
    err := WriteString(NameText(HEADER_END), f);
    AppendAssoc(w0, StringBytes(HEADER_START), SendFrom(t, h, 0).bytes);
    AppendAssoc(w0, StringBytes(HEADER_START) + SendFrom(t, h, 0).bytes, StringBytes(HEADER_END));
  }

  /** `filterbank_header` as its three writes: the start marker, the field loop and, unless the loop raised, the end marker. */
  lemma {:induction false} HeaderPieces(t: Table, h: Header)
    ensures var fields := SendFrom(t, h, 0);
      FilterbankHeader(t, h) ==
        if fields.error.Some? then Written(StringBytes(HEADER_START) + fields.bytes, fields.error)
        else Written(StringBytes(HEADER_START) + fields.bytes + StringBytes(HEADER_END), None)
  {
    MarkersWritable();
    var fields := SendFrom(t, h, 0);
    if fields.error.None? {
      AppendAssoc(StringBytes(HEADER_START), fields.bytes, StringBytes(HEADER_END));
    }
  }

  // ---------------------------------------------------------------- decoder

  /** `get_string` at a file position: truncated (struct.error), or a string, its count and the new position. */
  datatype StringRead = StrTruncated | StrRead(s: Option<seq<byte>>, n: nat, next: nat)

  /**
   * `get_string`: a 4-byte length; a length outside [1, 80] yields no string and
   * a count of 0 (although 4 bytes were consumed); otherwise the next `nchar`
   * bytes (fewer at end of file) and a count of `nchar + 4`.
   */
  function GetString(file: seq<byte>, pos: nat): (r: StringRead)
    requires pos <= |file|
    ensures r.StrRead? ==> pos + 4 <= r.next <= |file|
  {
    if |file| - pos < 4 then StrTruncated
    else
      var nchar := UnpackInt32(file[pos..pos + 4]);
      if nchar > 80 || nchar < 1 then StrRead(None, 0, pos + 4)
      else
        var end := if pos + 4 + nchar <= |file| then pos + 4 + nchar else |file|;
        StrRead(Some(file[pos + 4..end]), nchar + 4, end)
  }

  /** The exceptions of `read_header`: a short read, `None.decode()`, or a name missing from the table. */
  datatype ReadError = Truncated | NameNotString | UnknownName(name: seq<byte>)

  datatype ReadStatus = HeaderDone | NoHeaderStart | ReadFailed(error: ReadError)

  /** The attributes after `read_header`: the fields, `hdrbytes`, how it ended, and the file position. */
  datatype HeaderRead = HeaderRead(header: Header, hdrbytes: nat, status: ReadStatus, next: nat)

  function FindField(t: Table, name: seq<byte>, j: nat): (r: Option<Field>)
    requires j <= 20
    ensures r.Some? ==> Ascii(Name(t, r.value)) == name
    decreases 20 - j
  {
    if j == 20 then None
    else if Ascii(Name(t, j)) == name then Some(j as Field)
    else FindField(t, name, j + 1)
  }

  /** `self._type[s]`: the table position of a name, or None (KeyError). */
  function Lookup(t: Table, name: seq<byte>): Option<Field> {
    FindField(t, name, 0)
  }

  function Width(kind: Kind): nat
    requires kind != StringKind
  {
    if kind == IntKind then 4 else 8
  }

  /** `struct.unpack(datatype, ...)[0]` for an int or double field. */
  function NumberValue(kind: Kind, bs: seq<byte>): Value
    requires kind != StringKind && |bs| == Width(kind)
  {
    if kind == IntKind then Int(UnpackInt32(bs)) else Double(bs)
  }

  /** One pass of the `while True` loop of `read_header`: it either ends the loop or continues from a new position. */
  datatype Step = Stop(result: HeaderRead) | Continue(next: nat, header: Header, hdrbytes: nat)

  /** The body of the `while True` loop of `read_header` at file position pos: the name, then its value. */
  function ReadStep(t: Table, file: seq<byte>, pos: nat, h: Header, hb: nat): (r: Step)
    requires pos <= |file|
    ensures r.Continue? ==> pos < r.next <= |file| && hb <= r.hdrbytes
    ensures r.Stop? ==>
      r.result.status != NoHeaderStart && pos <= r.result.next <= |file| && hb <= r.result.hdrbytes &&
      r.result.header == h
  {
    var name := GetString(file, pos);
    if name.StrTruncated? then Stop(HeaderRead(h, hb, ReadFailed(Truncated), |file|))
    else if name.s.None? then Stop(HeaderRead(h, hb, ReadFailed(NameNotString), name.next))
    else if name.s.value == Ascii(HEADER_END) then Stop(HeaderRead(h, hb + name.n, HeaderDone, name.next))
    else if Lookup(t, name.s.value).None? then
      Stop(HeaderRead(h, hb + name.n, ReadFailed(UnknownName(name.s.value)), name.next))
    else ReadValue(t, file, name.next, Lookup(t, name.s.value).value, h, hb + name.n)
  }

  /** The value of table entry i at file position pos: `get_string` for a string entry, else `struct.unpack`. */
  function ReadValue(t: Table, file: seq<byte>, pos: nat, i: Field, h: Header, hb: nat): (r: Step)
    requires pos <= |file|
    ensures r.Continue? ==> pos < r.next <= |file| && hb <= r.hdrbytes
    ensures r.Stop? ==>
      r.result.status == ReadFailed(Truncated) && r.result.next == |file| && r.result.hdrbytes == hb &&
      r.result.header == h
  {
    if KindOf(t, i) == StringKind then
      var v := GetString(file, pos);
      if v.StrTruncated? then Stop(HeaderRead(h, hb, ReadFailed(Truncated), |file|))
      else Continue(v.next, h[i := if v.s.Some? then Some(Raw(v.s.value)) else None], hb + v.n)
    else
      var size := Width(KindOf(t, i));
      if |file| - pos < size then Stop(HeaderRead(h, hb, ReadFailed(Truncated), |file|))
      else Continue(pos + size, h[i := Some(NumberValue(KindOf(t, i), file[pos..pos + size]))], hb + size)
  }

  /** The `while True` loop of `read_header`, from file position pos. */
  function ReadFields(t: Table, file: seq<byte>, pos: nat, h: Header, hb: nat): (r: HeaderRead)
    requires pos <= |file|
    ensures r.status != NoHeaderStart
    ensures pos <= r.next <= |file|
    ensures hb <= r.hdrbytes
    decreases |file| - pos
  {
    match ReadStep(t, file, pos, h, hb)
    case Stop(r) => r
    case Continue(next, h', hb') => ReadFields(t, file, next, h', hb')
  }

  /**
   * `read_header` on a file read from its start. A first string other than
   * HEADER_START is not an error: `hdrbytes` stays 0 and no field is set.
   */
  function DecodeHeader(t: Table, file: seq<byte>): (r: HeaderRead)
    ensures r.status == NoHeaderStart ==> r.hdrbytes == 0 && r.header == EmptyHeader
    ensures r.status == NoHeaderStart <==>
      GetString(file, 0).StrRead? && GetString(file, 0).s != Some(Ascii(HEADER_START))
    ensures r.next <= |file|
  {
    var first := GetString(file, 0);
    if first.StrTruncated? then HeaderRead(EmptyHeader, 0, ReadFailed(Truncated), |file|)
    else if first.s != Some(Ascii(HEADER_START)) then HeaderRead(EmptyHeader, 0, NoHeaderStart, first.next)
    else ReadFields(t, file, first.next, EmptyHeader, first.n)
  }

  // ---------------------------------------------------------------- round trip

  /** The file holds the bytes x at position p. */
  predicate At(file: seq<byte>, p: nat, x: seq<byte>) {
    p + |x| <= |file| && file[p..p + |x|] == x
  }

  lemma {:induction false} AtSplit(file: seq<byte>, p: nat, x: seq<byte>, y: seq<byte>)
    requires At(file, p, x + y)
    ensures At(file, p, x) && At(file, p + |x|, y)
  {
    assert file[p..p + |x|] == (x + y)[..|x|];
    assert file[p + |x|..p + |x| + |y|] == (x + y)[|x|..];
  }

  /** `get_string` reads back what `send_string` wrote, with a bad length read as absent. */
  lemma {:induction false} GetStringOfSent(file: seq<byte>, p: nat, b: seq<byte>)
    requires |b| <= 80 && At(file, p, PackInt32(|b|) + b)
    ensures 1 <= |b| ==> GetString(file, p) == StrRead(Some(b), |b| + 4, p + 4 + |b|)
    ensures |b| == 0 ==> GetString(file, p) == StrRead(None, 0, p + 4)
  {
    AtSplit(file, p, PackInt32(|b|), b);
    Int32RoundTrip(|b|);
  }

  lemma {:induction false} LookupName(t: Table, k: Field)
    requires UniqueNames(t)
    ensures Lookup(t, Ascii(Name(t, k))) == Some(k)
  {
    var j := 0;
    while j < k
      invariant 0 <= j <= k
      invariant FindField(t, Ascii(Name(t, k)), j) == FindField(t, Ascii(Name(t, k)), 0)
    {
      if Ascii(Name(t, j)) == Ascii(Name(t, k)) {
        AsciiInjective(Name(t, j), Name(t, k));
      }
      j := j + 1;
    }
  }

  lemma {:induction false} NameIsNotEnd(t: Table, k: Field)
    requires UniqueNames(t)
    ensures Ascii(Name(t, k)) != Ascii(HEADER_END)
  {
    if Ascii(Name(t, k)) == Ascii(HEADER_END) {
      AsciiInjective(Name(t, k), HEADER_END);
    }
  }

  /** The written name of entry k is read as that entry's name, not as the end marker. */
  predicate NameReadsBack(t: Table, k: Field) {
    Lookup(t, Ascii(Name(t, k))) == Some(k) && Ascii(Name(t, k)) != Ascii(HEADER_END)
  }

  /** Tables whose every written name reads back as its own entry. */
  predicate Readable(t: Table) {
    forall k: Field :: NameReadsBack(t, k)
  }

  lemma {:induction false} UniqueNamesReadable(t: Table)
    requires UniqueNames(t)
    ensures Readable(t)
  {
    forall k: Field
      ensures NameReadsBack(t, k)
    {
      LookupName(t, k);
      NameIsNotEnd(t, k);
    }
  }

  /** What the decoder stores for a written value: strings come back as bytes, an empty one as None. */
  function AsRead(v: Option<Value>): Option<Value> {
    match v
    case Some(Text(b)) => if b == [] then None else Some(Raw(b))
    case _ => v
  }

  function ReadBack(h: Header): Header {
    seq(20, i requires 0 <= i < 20 => AsRead(h[i]))
  }

  /** The decoder's fields after the entries before table position k. */
  function Partial(h: Header, k: nat): Header {
    seq(20, i requires 0 <= i < 20 => if i < k then AsRead(h[i]) else None)
  }

  /** The number of string fields from position k on that hold the empty string. */
  function EmptyStrings(h: Header, k: nat): nat
    requires k <= 20
    decreases 20 - k
  {
    if k == 20 then 0 else (if h[k] == Some(Text([])) then 1 else 0) + EmptyStrings(h, k + 1)
  }

  /** Headers whose every present value fits its type and whose strings are at most 80 bytes. */
  predicate Decodable(t: Table, h: Header) {
    Encodable(t, h) && forall i: Field :: h[i].Some? && h[i].value.Text? ==> |h[i].value.utf8| <= 80
  }

  /** The written entries from k on: entry k, if present, then those after it. */
  lemma {:induction false} EntriesStep(t: Table, h: Header, k: Field)
    requires Encodable(t, h)
    ensures h[k].None? ==> Entries(t, h, Present(h, k)) == Entries(t, h, Present(h, k + 1))
    ensures h[k].Some? ==> Entries(t, h, Present(h, k)) == EntryBytes(t, k, h[k].value) + Entries(t, h, Present(h, k + 1))
  {
    if h[k].Some? {
      var ps := Present(h, k);
      assert ps[0] == k && ps[1..] == Present(h, k + 1);
    }
  }

  /** Reading a written name: it is a string, it is not HEADER_END, and it looks up entry k. */
  lemma {:induction false} ReadName(t: Table, file: seq<byte>, pos: nat, k: Field, tail: seq<byte>, hd: Header, hb: nat)
    requires Readable(t) && At(file, pos, StringBytes(Name(t, k)) + tail)
    ensures At(file, pos + |Name(t, k)| + 4, tail)
    ensures ReadStep(t, file, pos, hd, hb) == ReadValue(t, file, pos + |Name(t, k)| + 4, k, hd, hb + |Name(t, k)| + 4)
  {
    AtSplit(file, pos, StringBytes(Name(t, k)), tail);
    GetStringOfSent(file, pos, Ascii(Name(t, k)));
    assert NameReadsBack(t, k);
  }

  /** A string value: read as raw bytes, or as None when empty, and counted accordingly. */
  lemma {:induction false} ReadStringValue(t: Table, file: seq<byte>, pos: nat, k: Field, b: seq<byte>, hd: Header, hb: nat)
    requires KindOf(t, k) == StringKind && |b| <= 80
    requires At(file, pos, PackInt32(|b|) + b)
    ensures ReadValue(t, file, pos, k, hd, hb) ==
      Continue(pos + 4 + |b|, hd[k := if b == [] then None else Some(Raw(b))], hb + (if b == [] then 0 else |b| + 4))
  {
    GetStringOfSent(file, pos, b);
  }

  /** An int or double value: unpacked from the bytes at pos. */
  lemma {:induction false} ReadNumberValue(t: Table, file: seq<byte>, pos: nat, k: Field, vb: seq<byte>, hd: Header, hb: nat)
    requires KindOf(t, k) != StringKind && |vb| == Width(KindOf(t, k))
    requires At(file, pos, vb)
    ensures ReadValue(t, file, pos, k, hd, hb) == Continue(pos + |vb|, hd[k := Some(NumberValue(KindOf(t, k), vb))], hb + |vb|)
  {
  }

  /** HEADER_END ends the loop, counted as 14 bytes. */
  lemma {:induction false} ReadEnd(t: Table, file: seq<byte>, pos: nat, hd: Header, hb: nat)
    requires At(file, pos, StringBytes(HEADER_END))
    ensures ReadStep(t, file, pos, hd, hb) == Stop(HeaderRead(hd, hb + 14, HeaderDone, pos + 14))
  {
    assert |Ascii(HEADER_END)| == 10;
    GetStringOfSent(file, pos, Ascii(HEADER_END));
  }

  /** An int or double value reads back as itself. */
  lemma {:induction false} NumberReadsBack(t: Table, k: Field, v: Value)
    requires KindOf(t, k) != StringKind && Fits(KindOf(t, k), v)
    ensures |ValueBytes(KindOf(t, k), v)| == Width(KindOf(t, k))
    ensures NumberValue(KindOf(t, k), ValueBytes(KindOf(t, k), v)) == v
  {
    if KindOf(t, k) == IntKind {
      Int32RoundTrip(v.n);
    }
  }

  /** A pass of the loop that continues hands over to the rest of the loop. */
  lemma {:induction false} ReadFieldsContinue(t: Table, file: seq<byte>, pos: nat, hd: Header, hb: nat, next: nat, hd': Header, hb': nat)
    requires pos <= |file| && ReadStep(t, file, pos, hd, hb) == Continue(next, hd', hb')
    ensures ReadFields(t, file, pos, hd, hb) == ReadFields(t, file, next, hd', hb')
  {
  }

  lemma {:induction false} PartialStep(h: Header, k: Field)
    ensures Partial(h, k)[k := AsRead(h[k])] == Partial(h, k + 1)
  {
  }

  /** Reading one written string entry advances past it and records the string as read back. */
  lemma {:induction false} ReadStringEntry(t: Table, file: seq<byte>, pos: nat, k: Field, b: seq<byte>, tail: seq<byte>, hd: Header, hb: nat)
    requires Readable(t) && KindOf(t, k) == StringKind && |b| <= 80
    requires At(file, pos, StringBytes(Name(t, k)) + (PackInt32(|b|) + b + tail))
    ensures ReadStep(t, file, pos, hd, hb) ==
      Continue(pos + |Name(t, k)| + 8 + |b|, hd[k := if b == [] then None else Some(Raw(b))],
               hb + |Name(t, k)| + 4 + (if b == [] then 0 else |b| + 4))
  {
    var p, hb1 := pos + |Name(t, k)| + 4, hb + |Name(t, k)| + 4;
    ReadName(t, file, pos, k, PackInt32(|b|) + b + tail, hd, hb);
    AtSplit(file, p, PackInt32(|b|) + b, tail);
    ReadStringValue(t, file, p, k, b, hd, hb1);
    assert ReadStep(t, file, pos, hd, hb) == ReadValue(t, file, p, k, hd, hb1);
  }

  /** Reading one written int or double entry advances past it and records the number. */
  lemma {:induction false} ReadNumberEntry(t: Table, file: seq<byte>, pos: nat, k: Field, vb: seq<byte>, tail: seq<byte>, hd: Header, hb: nat)
    requires Readable(t) && KindOf(t, k) != StringKind && |vb| == Width(KindOf(t, k))
    requires At(file, pos, StringBytes(Name(t, k)) + (vb + tail))
    ensures ReadStep(t, file, pos, hd, hb) ==
      Continue(pos + |Name(t, k)| + 4 + |vb|, hd[k := Some(NumberValue(KindOf(t, k), vb))], hb + |Name(t, k)| + 4 + |vb|)
  {
    var p, hb1 := pos + |Name(t, k)| + 4, hb + |Name(t, k)| + 4;
    ReadName(t, file, pos, k, vb + tail, hd, hb);
    AtSplit(file, p, vb, tail);
    ReadNumberValue(t, file, p, k, vb, hd, hb1);
  }

  /** Reading any present written entry: the loop continues after it, with its value read back. */
  lemma {:induction false} ReadEntry(t: Table, h: Header, file: seq<byte>, k: Field, pos: nat, hb: nat, tail: seq<byte>)
    requires Readable(t) && Decodable(t, h) && h[k].Some? && At(file, pos, EntryBytes(t, k, h[k].value) + tail)
    ensures var st := ReadStep(t, file, pos, Partial(h, k), hb);
      st.Continue? && st.next == pos + |EntryBytes(t, k, h[k].value)| && st.header == Partial(h, k + 1) &&
      st.hdrbytes + (if h[k] == Some(Text([])) then 4 else 0) == hb + |EntryBytes(t, k, h[k].value)|
  {
    var v := h[k].value;
    var nb, vb := StringBytes(Name(t, k)), ValueBytes(KindOf(t, k), v);
    assert EntryBytes(t, k, v) + tail == nb + (vb + tail);
    PartialStep(h, k);
    if KindOf(t, k) == StringKind {
      ReadStringEntry(t, file, pos, k, v.utf8, tail, Partial(h, k), hb);
    } else {
      NumberReadsBack(t, k, v);
      ReadNumberEntry(t, file, pos, k, vb, tail, Partial(h, k), hb);
    }
  }

  /** The bytes the encoder writes for the entries from k on, and HEADER_END. */
  function Tail(t: Table, h: Header, k: nat): seq<byte>
    requires k <= 20 && Encodable(t, h)
  {
    Entries(t, h, Present(h, k)) + StringBytes(HEADER_END)
  }

  /** The decoder, started at pos on Tail(t, h, k), reads back every entry and stops right after it. */
  predicate ReadsBackFrom(t: Table, h: Header, file: seq<byte>, k: nat, pos: nat, hb: nat)
    requires k <= 20 && pos <= |file| && Encodable(t, h)
  {
    var r := ReadFields(t, file, pos, Partial(h, k), hb);
    r.header == ReadBack(h) && r.status == HeaderDone &&
    r.hdrbytes + 4 * EmptyStrings(h, k) == hb + |Tail(t, h, k)| &&
    r.next == pos + |Tail(t, h, k)|
  }

  /** Reading an absent entry is reading nothing: the tail, fields and count are those of k + 1. */
  lemma {:induction false} AbsentStep(t: Table, h: Header, k: Field)
    requires Encodable(t, h) && h[k].None?
    ensures Tail(t, h, k) == Tail(t, h, k + 1) && Partial(h, k) == Partial(h, k + 1)
    ensures EmptyStrings(h, k) == EmptyStrings(h, k + 1)
  {
    EntriesStep(t, h, k);
  }

  /**
   * Reading a present entry k at pos: the loop goes on at next, after the entry,
   * with hdrbytes hb'; what is left to read is the tail from k + 1, and the final
   * count minus four per empty string is unchanged.
   */
  lemma {:induction false} PresentStep(t: Table, h: Header, file: seq<byte>, k: Field, pos: nat, hb: nat) returns (next: nat, hb': nat)
    requires Readable(t) && Decodable(t, h) && h[k].Some? && At(file, pos, Tail(t, h, k))
    ensures next <= |file| && At(file, next, Tail(t, h, k + 1))
    ensures ReadFields(t, file, pos, Partial(h, k), hb) == ReadFields(t, file, next, Partial(h, k + 1), hb')
    ensures pos + |Tail(t, h, k)| == next + |Tail(t, h, k + 1)|
    ensures hb' + |Tail(t, h, k + 1)| + 4 * EmptyStrings(h, k) == hb + |Tail(t, h, k)| + 4 * EmptyStrings(h, k + 1)
  {
    var entry, rest := EntryBytes(t, k, h[k].value), Tail(t, h, k + 1);
    TailStep(t, h, k);
    AtSplit(file, pos, entry, rest);
    next := pos + |entry|;
    assert next <= |file| && At(file, next, rest);
    ReadEntry(t, h, file, k, pos, hb, rest);
    var st := ReadStep(t, file, pos, Partial(h, k), hb);
    hb' := st.hdrbytes;
    assert st == Continue(next, Partial(h, k + 1), hb');
    ReadFieldsContinue(t, file, pos, Partial(h, k), hb, next, Partial(h, k + 1), hb');
  }

  /** A present entry k is written in front of the entries after it. */
  lemma {:induction false} TailStep(t: Table, h: Header, k: Field)
    requires Encodable(t, h) && h[k].Some?
    ensures Tail(t, h, k) == EntryBytes(t, k, h[k].value) + Tail(t, h, k + 1)
  {
    EntriesStep(t, h, k);
    AppendAssoc(EntryBytes(t, k, h[k].value), Entries(t, h, Present(h, k + 1)), StringBytes(HEADER_END));
  }

  lemma {:induction false} ReadFieldsOfTail(t: Table, h: Header, file: seq<byte>, k: nat, pos: nat, hb: nat)
    requires Readable(t) && k <= 20 && Decodable(t, h) && At(file, pos, Tail(t, h, k))
    ensures ReadsBackFrom(t, h, file, k, pos, hb)
    decreases 20 - k
  {
    if k == 20 {
      ReadTailEnd(t, h, file, pos, hb);
    } else if h[k].None? {
      AbsentStep(t, h, k);
      ReadFieldsOfTail(t, h, file, k + 1, pos, hb);
    } else {
      var next, hb' := PresentStep(t, h, file, k, pos, hb);
      ReadFieldsOfTail(t, h, file, k + 1, next, hb');
    }
  }

  /** After the last entry only HEADER_END is left, which ends the loop. */
  lemma {:induction false} ReadTailEnd(t: Table, h: Header, file: seq<byte>, pos: nat, hb: nat)
    requires Decodable(t, h) && At(file, pos, Tail(t, h, 20))
    ensures ReadsBackFrom(t, h, file, 20, pos, hb)
  {
    assert Tail(t, h, 20) == StringBytes(HEADER_END);
    ReadEnd(t, file, pos, Partial(h, 20), hb);
    assert Partial(h, 20) == ReadBack(h);
  }

  /**
   * Round trip: decoding what the encoder wrote (followed by any data) restores
   * every present field, strings as raw bytes, and stops right after HEADER_END.
   * `hdrbytes` falls short of the header's length by 4 for every empty string,
   * because `get_string` counts a zero length as 0 bytes.
   */
  lemma {:induction false} RoundTrip(t: Table, h: Header, rest: seq<byte>)
    requires Readable(t) && Decodable(t, h)
    ensures FilterbankHeader(t, h).error == None
    ensures var enc := FilterbankHeader(t, h).bytes;
      var r := DecodeHeader(t, enc + rest);
      r.header == ReadBack(h) && r.status == HeaderDone && r.next == |enc| &&
      r.hdrbytes + 4 * EmptyStrings(h, 0) == |enc|
  {
    EncodedAsTail(t, h);
    DecodeWritten(t, h, rest);
  }

  /** The encoder writes HEADER_START followed by the tail from entry 0. */
  lemma {:induction false} EncodedAsTail(t: Table, h: Header)
    requires Encodable(t, h)
    ensures FilterbankHeader(t, h).error == None
    ensures FilterbankHeader(t, h).bytes == StringBytes(HEADER_START) + Tail(t, h, 0)
  {
    FilterbankHeaderLayout(t, h);
    AppendAssoc(StringBytes(HEADER_START), Entries(t, h, Present(h, 0)), StringBytes(HEADER_END));
  }

  lemma {:induction false} AppendAssoc(a: seq<byte>, b: seq<byte>, c: seq<byte>)
    ensures a + b + c == a + (b + c)
  {
  }

  /** A file that starts with HEADER_START is read on from just after it, with 16 bytes counted. */
  lemma {:induction false} DecodeStart(t: Table, file: seq<byte>)
    requires At(file, 0, StringBytes(HEADER_START))
    ensures DecodeHeader(t, file) == ReadFields(t, file, 16, EmptyHeader, 16)
  {
    assert |Ascii(HEADER_START)| == 12;
    GetStringOfSent(file, 0, Ascii(HEADER_START));
  }

  /** Decoding the encoder's layout of h followed by any bytes. */
  lemma {:induction false} DecodeWritten(t: Table, h: Header, rest: seq<byte>)
    requires Readable(t) && Decodable(t, h)
    ensures var file := StringBytes(HEADER_START) + Tail(t, h, 0) + rest;
      var r := DecodeHeader(t, file);
      r.header == ReadBack(h) && r.status == HeaderDone && r.next == 16 + |Tail(t, h, 0)| &&
      r.hdrbytes + 4 * EmptyStrings(h, 0) == 16 + |Tail(t, h, 0)|
  {
    var file := StringBytes(HEADER_START) + Tail(t, h, 0) + rest;
    assert At(file, 0, StringBytes(HEADER_START) + Tail(t, h, 0));
    AtSplit(file, 0, StringBytes(HEADER_START), Tail(t, h, 0));
    DecodeStart(t, file);
    assert Partial(h, 0) == EmptyHeader;
    ReadFieldsOfTail(t, h, file, 0, 16, 16);
  }

  /** With no empty strings, `hdrbytes` is exactly the encoded header's length, where the data starts. */
  lemma {:induction false} RoundTripLength(t: Table, h: Header, rest: seq<byte>)
    requires Readable(t) && Decodable(t, h) && EmptyStrings(h, 0) == 0
    ensures DecodeHeader(t, FilterbankHeader(t, h).bytes + rest).hdrbytes == |FilterbankHeader(t, h).bytes|
    ensures DecodeHeader(t, FilterbankHeader(t, h).bytes + rest).header == ReadBack(h)
  {
    RoundTrip(t, h, rest);
  }

  /** An empty source name is written with length 0, read back as absent, and undercounted by 4. */
  lemma {:induction false} EmptyStringUndercounts(t: Table, h: Header)
    requires Readable(t) && Decodable(t, h) && h[SOURCE_NAME] == Some(Text([]))
    ensures DecodeHeader(t, FilterbankHeader(t, h).bytes).hdrbytes < |FilterbankHeader(t, h).bytes|
    ensures DecodeHeader(t, FilterbankHeader(t, h).bytes).header[SOURCE_NAME] == None
  {
    RoundTrip(t, h, []);
    assert FilterbankHeader(t, h).bytes + [] == FilterbankHeader(t, h).bytes;
    EmptyStringsCounts(h, 0, SOURCE_NAME);
  }

  lemma {:induction false} EmptyStringsCounts(h: Header, k: nat, i: Field)
    requires k <= i && h[i] == Some(Text([]))
    ensures EmptyStrings(h, k) >= 1
    decreases 20 - k
  {
    if k < i {
      EmptyStringsCounts(h, k + 1, i);
    }
  }
}
