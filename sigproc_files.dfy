/**
 * Filterbank files on disk (dada_fildb/sigproc.py): `append_spectra`, which
 * adds 8-bit spectra after whatever a file holds, and `new_file`, which opens
 * a file, sets the given header keys on it, rewrites it with that header and
 * opens it again.
 */
module SigprocFiles {
  import opened Wrappers
  import opened ByteCodec
  import opened SigprocHeader
  import opened SigprocReader

  /** A file on disk and its bytes; a missing file is an empty one. */
  class DiskFile {
    var contents: seq<byte>

    constructor (bytes: seq<byte>)
      ensures contents == bytes
    {
      contents := bytes;
    }
  }

  // ---------------------------------------------------------------- append_spectra

  /** `spectra.flatten()` of a (time, channel) array of bytes: its rows one after another. */
  function Flatten(rows: seq<seq<byte>>): (r: seq<byte>)
    ensures r == [] <==> forall k :: 0 <= k < |rows| ==> rows[k] == []
  {
    if rows == [] then [] else rows[0] + Flatten(rows[1..])
  }

  /** m spectra of n bytes flatten into m * n bytes. */
  lemma {:induction false} FlattenLength(rows: seq<seq<byte>>, n: nat)
    requires forall k :: 0 <= k < |rows| ==> |rows[k]| == n
    ensures |Flatten(rows)| == Pos(|rows|, n)
  {
    if rows != [] {
      FlattenLength(rows[1..], n);
      PosFirst(|rows| - 1, n);
    }
  }

  /** Sample c of spectrum k is byte `k * n + c` of the flattened spectra. */
  lemma {:induction false} FlattenAt(rows: seq<seq<byte>>, n: nat, k: nat, c: nat)
    requires forall k :: 0 <= k < |rows| ==> |rows[k]| == n
    requires k < |rows| && c < n
    ensures Pos(k, n) + c < |Flatten(rows)| && Flatten(rows)[Pos(k, n) + c] == rows[k][c]
  {
    FlattenLength(rows, n);
    PosIndex(k, |rows|, c, n);
    assert Flatten(rows) == rows[0] + Flatten(rows[1..]);
    if k > 0 {
      FlattenAt(rows[1..], n, k - 1, c);
      PosFirst(k - 1, n);
      assert rows[1..][k - 1] == rows[k];
    }
  }

  /** Counting the first piece first: `(i + 1) * n == n + i * n`. */
  lemma {:induction false} PosFirst(i: nat, n: nat)
    ensures Pos(i + 1, n) == n + Pos(i, n)
  {
  }

  /** `append_spectra(spectra, filename)`: the flattened samples go after whatever the file holds. */
  method AppendSpectra(spectra: seq<seq<byte>>, file: DiskFile)
    modifies file
    ensures file.contents == old(file.contents) + Flatten(spectra)
  {
    file.contents := file.contents + Flatten(spectra);
  }

  /** Data appended after a written header does not change what the header reads back as. */
  lemma {:induction false} AppendKeepsHeader(h: Header, rest: seq<byte>, more: seq<byte>)
    requires Decodable(Types, h)
    ensures var enc := FilterbankHeader(Types, h).bytes;
      DecodeHeader(Types, enc + rest + more) == DecodeHeader(Types, enc + rest)
  {
    TypesReadable();
    var enc := FilterbankHeader(Types, h).bytes;
    RoundTrip(Types, h, rest);
    RoundTrip(Types, h, rest + more);
    AppendAssoc(enc, rest, more);
  }

  lemma {:induction false} TypesReadable()
    ensures Readable(Types)
  {
    TypesUniqueNames();
    UniqueNamesReadable(Types);
  }

  // ---------------------------------------------------------------- new_file

  /** What `new_file` raises: the exception of reading the file, the failed assert on a key, or that of writing the header. */
  datatype NewFileError = OpenFailed(readError: ReadError) | UnknownKey(key: string) | WriteFailed(writeError: EncodeError)

  /** `k in _type.keys()`: the table entry named k, searching from entry j. */
  function FindKey(t: Table, k: string, j: nat): (r: Option<Field>)
    requires j <= 20
    ensures r.Some? ==> j <= r.value && Name(t, r.value) == k
    ensures r.None? ==> forall i: Field :: j <= i ==> Name(t, i) != k
    decreases 20 - j
  {
    if j == 20 then None else if Name(t, j) == k then Some(j) else FindKey(t, k, j + 1)
  }

  /**
   * The `setattr` loop of `new_file`: each key must name a table entry, whose
   * value it replaces; the loop stops at one of the given keys that no entry has.
   */
  function SetFields(t: Table, h: Header, items: seq<(string, Option<Value>)>): (r: Result<Header, string>)
    ensures r.Failure? ==> (exists j :: 0 <= j < |items| && items[j].0 == r.error) && forall i: Field :: Name(t, i) != r.error
    decreases |items|
  {
    if items == [] then Success(h)
    else match FindKey(t, items[0].0, 0)
      case None => Failure(items[0].0)
      case Some(i) => SetFields(t, h[i := items[0].1], items[1..])
  }

  /** The loop stops at a key outside the table, and only there. */
  lemma {:induction false} SetFieldsKnown(t: Table, h: Header, items: seq<(string, Option<Value>)>)
    ensures SetFields(t, h, items).Success? <==> forall j :: 0 <= j < |items| ==> FindKey(t, items[j].0, 0).Some?
    ensures SetFields(t, h, items).Failure? ==>
      exists j :: 0 <= j < |items| && items[j].0 == SetFields(t, h, items).error && FindKey(t, items[j].0, 0).None?
    decreases |items|
  {
    if items != [] {
      var i := FindKey(t, items[0].0, 0);
      if i.Some? {
        SetFieldsKnown(t, h[i.value := items[0].1], items[1..]);
        if SetFields(t, h, items).Failure? {
          var j :| 0 <= j < |items[1..]| && items[1..][j].0 == SetFields(t, h, items).error && FindKey(t, items[1..][j].0, 0).None?;
          assert items[j + 1] == items[1..][j];
        }
        forall j | 0 <= j < |items[1..]| ensures items[1..][j] == items[j + 1] {
        }
      } else {
        assert FindKey(t, items[0].0, 0).None?;
      }
    }
  }

  /** A field no key names keeps its value. */
  lemma {:induction false} SetFieldsOthers(t: Table, h: Header, items: seq<(string, Option<Value>)>, i: Field)
    requires SetFields(t, h, items).Success?
    requires forall j :: 0 <= j < |items| ==> items[j].0 != Name(t, i)
    ensures SetFields(t, h, items).value[i] == h[i]
    decreases |items|
  {
    if items != [] {
      var k := FindKey(t, items[0].0, 0).value;
      forall j | 0 <= j < |items[1..]| ensures items[1..][j].0 != Name(t, i) {
        assert items[1..][j] == items[j + 1];
      }
      SetFieldsOthers(t, h[k := items[0].1], items[1..], i);
    }
  }

  /** A field named by a key holds the value of the last key that names it. */
  lemma {:induction false} SetFieldsLast(t: Table, h: Header, items: seq<(string, Option<Value>)>, i: Field, j: nat)
    requires UniqueNames(t) && SetFields(t, h, items).Success?
    requires j < |items| && items[j].0 == Name(t, i)
    requires forall j' :: j < j' < |items| ==> items[j'].0 != Name(t, i)
    ensures SetFields(t, h, items).value[i] == items[j].1
    decreases |items|
  {
    var k := FindKey(t, items[0].0, 0).value;
    if j == 0 {
      assert k == i;
      forall j' | 0 <= j' < |items[1..]| ensures items[1..][j'].0 != Name(t, i) {
        assert items[1..][j'] == items[j' + 1];
      }
      SetFieldsOthers(t, h[k := items[0].1], items[1..], i);
    } else {
      assert items[1..][j - 1] == items[j];
      forall j' | j - 1 < j' < |items[1..]| ensures items[1..][j'].0 != Name(t, i) {
        assert items[1..][j'] == items[j' + 1];
      }
      SetFieldsLast(t, h[k := items[0].1], items[1..], i, j - 1);
    }
  }

  /** How `SigprocFile(fname)` leaves a file with these contents: read, or untouched when empty. */
  function Opened(t: Table, contents: seq<byte>): (r: HeaderRead)
    ensures contents == [] ==> r == HeaderRead(EmptyHeader, 0, HeaderDone, 0)
    ensures contents != [] ==> r == DecodeHeader(t, contents)
  {
    if |contents| == 0 then HeaderRead(EmptyHeader, 0, HeaderDone, 0) else DecodeHeader(t, contents)
  }

  /**
   * `new_file(fname, header)`: open the file (fields it already has stay),
   * set the given keys, truncate the file and write the header to it, then
   * open it again. An unknown key stops before the file is touched; a value
   * that cannot be encoded leaves the header written up to that field.
   */
  method NewFile(file: DiskFile, items: seq<(string, Option<Value>)>) returns (r: Result<SigprocFile, NewFileError>)
    modifies file
    ensures Opened(Types, old(file.contents)).status.ReadFailed? ==>
      r == Failure(OpenFailed(Opened(Types, old(file.contents)).status.error)) && file.contents == old(file.contents)
    ensures !Opened(Types, old(file.contents)).status.ReadFailed? && SetFields(Types, Opened(Types, old(file.contents)).header, items).Failure? ==>
      r == Failure(UnknownKey(SetFields(Types, Opened(Types, old(file.contents)).header, items).error)) && file.contents == old(file.contents)
    ensures !Opened(Types, old(file.contents)).status.ReadFailed? && SetFields(Types, Opened(Types, old(file.contents)).header, items).Success? ==>
      var written := FilterbankHeader(Types, SetFields(Types, Opened(Types, old(file.contents)).header, items).value);
      file.contents == written.bytes &&
      (written.error.Some? ==> r == Failure(WriteFailed(written.error.value))) &&
      (written.error.None? && DecodeHeader(Types, written.bytes).status.ReadFailed? ==>
        r == Failure(OpenFailed(DecodeHeader(Types, written.bytes).status.error))) &&
      (written.error.None? && !DecodeHeader(Types, written.bytes).status.ReadFailed? ==>
        r.Success? && fresh(r.value) && r.value.data == written.bytes && r.value.mapped &&
        HeaderRead(r.value.header, r.value.hdrbytes, r.value.status, r.value.cursor) == DecodeHeader(Types, written.bytes))
  {
    var first := Open(file.contents);
    if first.Failure? {
      return Failure(OpenFailed(first.error));
    }
    var f := first.value;
    var unknown := SetAttrs(f, items);
    if unknown.Some? {
      return Failure(UnknownKey(unknown.value));
    }
    var sink := new Sink();
    var err := WriteHeader(Types, f.header, sink);
    file.contents := sink.written;
    if err.Some? {
      return Failure(WriteFailed(err.value));
    }
    MarkersWritable();
    var reopened := Open(file.contents);
    if reopened.Failure? {
      return Failure(OpenFailed(reopened.error));
    }
    return Success(reopened.value);
  }

  /** `for k, v in header.items(): assert k in _type.keys(); setattr(sigprocfile, k, v)`. */
  method SetAttrs(f: SigprocFile, items: seq<(string, Option<Value>)>) returns (unknown: Option<string>)
    modifies f
    ensures SetFields(Types, old(f.header), items).Failure? <==> unknown.Some?
    ensures unknown.Some? ==> unknown.value == SetFields(Types, old(f.header), items).error
    ensures unknown.None? ==> f.header == SetFields(Types, old(f.header), items).value
    ensures f.data == old(f.data) && f.hdrbytes == old(f.hdrbytes) && f.status == old(f.status)
    ensures f.cursor == old(f.cursor) && f.mapped == old(f.mapped)
  {
    ghost var start := f.header;
    for j := 0 to |items|
      invariant SetFields(Types, start, items) == SetFields(Types, f.header, items[j..])
      invariant f.data == old(f.data) && f.hdrbytes == old(f.hdrbytes) && f.status == old(f.status)
      invariant f.cursor == old(f.cursor) && f.mapped == old(f.mapped)
    {
      var i := FindKey(Types, items[j].0, 0);
      assert items[j..][0] == items[j] && items[j..][1..] == items[j + 1..];
      if i.None? {
        return Some(items[j].0);
      }
      f.header := f.header[i.value := items[j].1];
    }
    assert items[|items|..] == [];
    return None;
  }

  // ---------------------------------------------------------------- a file built as the tests build it

  /** Every field of h as a `(key, value)` item, in table order. */
  function FieldItems(t: Table, h: Header): (items: seq<(string, Option<Value>)>)
    ensures |items| == 20
    ensures forall i :: 0 <= i < 20 ==> items[i] == (Name(t, i), h[i])
  {
    seq(20, i requires 0 <= i < 20 => (Name(t, i), h[i]))
  }

  /** Setting every field of h, in any starting header, gives h. */
  lemma {:induction false} SetAllFields(t: Table, start: Header, h: Header)
    requires UniqueNames(t)
    ensures SetFields(t, start, FieldItems(t, h)) == Success(h)
  {
    var items := FieldItems(t, h);
    forall j | 0 <= j < |items| ensures FindKey(t, items[j].0, 0).Some? {
      assert FindKey(t, Name(t, j), 0).Some?;
    }
    SetFieldsKnown(t, start, items);
    var r := SetFields(t, start, items).value;
    forall i: Field ensures r[i] == h[i] {
      SetFieldsLast(t, start, items, i, i);
    }
    assert r == h;
  }

  /**
   * A new file with an 8-bit, single-IF, 384-channel header, followed by
   * three appends of 1024 spectra: reopened, it holds 3072 spectra.
   */
  method ThreeAppends(h: Header, pages: seq<seq<seq<byte>>>) returns (n: Result<real, DataError>)
    requires Decodable(Types, h) && EmptyStrings(h, 0) == 0 && EightBit(h, 384)
    requires |pages| == 3 && forall p :: 0 <= p < 3 ==> |pages[p]| == 1024
    requires forall p, k :: 0 <= p < 3 && 0 <= k < |pages[p]| ==> |pages[p][k]| == 384
    ensures n == Success(3072.0)
  {
    var file := CreateFile(h);
    ghost var enc := FilterbankHeader(Types, h).bytes;
    ghost var f0, f1, f2 := Flatten(pages[0]), Flatten(pages[1]), Flatten(pages[2]);
    AppendSpectra(pages[0], file);
    AppendSpectra(pages[1], file);
    AppendSpectra(pages[2], file);
    ThreeAppendsAssoc(enc, f0, f1, f2);
    ThreePagesLength(pages);
    var f := new SigprocFile(file.contents);
    AppendedFile(f, h, f0 + f1 + f2);
    NSpectraOfSpectra(f, h, f0 + f1 + f2, 3072, 384);
    n := f.NSpectra();
  }

  /**
   * `write_header(filename)`: the file is truncated and then holds the header
   * of f as far as `filterbank_header` got, with its exception.
   */
  method WriteHeaderFile(f: SigprocFile, file: DiskFile) returns (err: Option<EncodeError>)
    modifies file
    ensures file.contents == FilterbankHeader(Types, f.header).bytes
    ensures err == FilterbankHeader(Types, f.header).error
  {
    var sink := new Sink();
    err := WriteHeader(Types, f.header, sink);
    file.contents := sink.written;
  }

  /** `new_file` on a missing file, given every field of h: the file then holds h's header. */
  method CreateFile(h: Header) returns (file: DiskFile)
    requires Decodable(Types, h)
    ensures fresh(file) && file.contents == FilterbankHeader(Types, h).bytes
  {
    file := new DiskFile([]);
    NewFileOfHeader(h);
    var r := NewFile(file, FieldItems(Types, h));
  }

  /** `new_file` on a missing file with every field of h writes exactly h's header. */
  lemma {:induction false} NewFileOfHeader(h: Header)
    requires Decodable(Types, h)
    ensures SetFields(Types, Opened(Types, []).header, FieldItems(Types, h)) == Success(h)
    ensures FilterbankHeader(Types, h).error == None
    ensures !DecodeHeader(Types, FilterbankHeader(Types, h).bytes).status.ReadFailed?
  {
    TypesUniqueNames();
    SetAllFields(Types, EmptyHeader, h);
    TypesReadable();
    RoundTrip(Types, h, []);
    assert FilterbankHeader(Types, h).bytes + [] == FilterbankHeader(Types, h).bytes;
  }

  lemma {:induction false} ThreeAppendsAssoc(a: seq<byte>, b: seq<byte>, c: seq<byte>, d: seq<byte>)
    ensures a + b + c + d == a + (b + c + d)
  {
  }

  /** Opening a file that holds h's header and then more bytes reads h's header back. */
  lemma {:induction false} AppendedFile(f: SigprocFile, h: Header, rest: seq<byte>)
    requires Decodable(Types, h)
    requires f.data == FilterbankHeader(Types, h).bytes + rest
    requires f.mapped == (|f.data| != 0)
    requires f.mapped ==> HeaderRead(f.header, f.hdrbytes, f.status, f.cursor) == DecodeHeader(Types, f.data)
    ensures f.mapped && HeaderRead(f.header, f.hdrbytes, f.status, f.cursor) == DecodeHeader(Types, f.data)
  {
    MarkersWritable();
    assert |FilterbankHeader(Types, h).bytes| >= |StringBytes(HEADER_START)|;
  }

  lemma {:induction false} ThreePagesLength(pages: seq<seq<seq<byte>>>)
    requires |pages| == 3 && forall p :: 0 <= p < 3 ==> |pages[p]| == 1024
    requires forall p, k :: 0 <= p < 3 && 0 <= k < |pages[p]| ==> |pages[p][k]| == 384
    ensures |Flatten(pages[0]) + Flatten(pages[1]) + Flatten(pages[2])| == Pos(3072, 384)
  {
    FlattenLength(pages[0], 384);
    FlattenLength(pages[1], 384);
    FlattenLength(pages[2], 384);
    PosIsProduct(1024, 384);
    PosIsProduct(3072, 384);
  }

  /**
   * A file holding the header of h and then m whole spectra of n bytes (8-bit,
   * single IF, n channels) has `nspectra() == m`.
   */
  lemma {:induction false} NSpectraOfSpectra(f: SigprocFile, h: Header, rest: seq<byte>, m: nat, n: nat)
    requires Decodable(Types, h) && EmptyStrings(h, 0) == 0 && EightBit(h, n)
    requires f.data == FilterbankHeader(Types, h).bytes + rest && |rest| == Pos(m, n)
    requires f.mapped && HeaderRead(f.header, f.hdrbytes, f.status, f.cursor) == DecodeHeader(Types, f.data)
    ensures f.NSpectra() == Success(m as real)
  {
    TypesReadable();
    RoundTripLength(Types, h, rest);
    assert f.header == ReadBack(h) && f.hdrbytes == |f.data| - |rest|;
    assert EightBit(f.header, n);
    NSpectraEightBit(f.State(), n, m);
  }

}
