/**
 * The reading side of `SigprocFile` (dada_fildb/sigproc.py): opening a file
 * runs `read_header` over its bytes, then the sample data after the header is
 * read through the memory map by `get_data` and `unpack`.
 *
 * Python's dynamic typing shows through: header attributes are `Option<Value>`
 * (None until set), arithmetic on an attribute that is not an int raises, and
 * `bytes_per_spectrum` and `nspectra` are floats (true division), modelled as
 * exact `real`s.
 */
module SigprocReader {
  import opened Wrappers
  import opened ByteCodec
  import opened SigprocHeader
  import opened PackedSamples

  // ---------------------------------------------------------------- read_header as a loop

  /**
   * `read_header`: the first string must be HEADER_START, then the `while True`
   * loop reads a name and its value per pass until HEADER_END, advancing the
   * file position and accumulating `hdrbytes`.
   */
  method ReadHeader(t: Table, file: seq<byte>) returns (r: HeaderRead)
    ensures r == DecodeHeader(t, file)
  {
    var first := GetString(file, 0);
    if first.StrTruncated? {
      return HeaderRead(EmptyHeader, 0, ReadFailed(Truncated), |file|);
    }
    if first.s != Some(Ascii(HEADER_START)) {
      return HeaderRead(EmptyHeader, 0, NoHeaderStart, first.next);
    }
    var pos: nat, h: Header, hb: nat := first.next, EmptyHeader, first.n;
    var done := false;
    r := HeaderRead(h, hb, HeaderDone, pos);
    while !done
      invariant pos <= |file|
      invariant done ==> r == DecodeHeader(t, file)
      invariant !done ==> ReadFields(t, file, pos, h, hb) == DecodeHeader(t, file)
      decreases |file| - pos, if done then 0 else 1
    {
      var st := ReadPass(t, file, pos, h, hb);
      match st
      case Stop(res) =>
        ReadFieldsStop(t, file, pos, h, hb, res);
        r, done := res, true;
      case Continue(next, h', hb') =>
        ReadFieldsContinue(t, file, pos, h, hb, next, h', hb');
        pos, h, hb := next, h', hb';
    }
  }

  /** One pass of the `while True` loop: the name at pos, then its value, or the reason the loop ends there. */
  method ReadPass(t: Table, file: seq<byte>, pos: nat, h: Header, hb: nat) returns (st: Step)
    requires pos <= |file|
    ensures st == ReadStep(t, file, pos, h, hb)
  {
    var name := GetString(file, pos);
    if name.StrTruncated? {
      return Stop(HeaderRead(h, hb, ReadFailed(Truncated), |file|));
    } else if name.s.None? {
      // `None.decode()` raises before `hdrbytes` is advanced
      return Stop(HeaderRead(h, hb, ReadFailed(NameNotString), name.next));
    } else if name.s.value == Ascii(HEADER_END) {
      return Stop(HeaderRead(h, hb + name.n, HeaderDone, name.next));
    } else if Lookup(t, name.s.value).None? {
      return Stop(HeaderRead(h, hb + name.n, ReadFailed(UnknownName(name.s.value)), name.next));
    }
    st := ReadFieldValue(t, file, name.next, Lookup(t, name.s.value).value, h, hb + name.n);
  }

  /** A pass of the loop that stops ends `read_header` with its result. */
  lemma {:induction false} ReadFieldsStop(t: Table, file: seq<byte>, pos: nat, h: Header, hb: nat, res: HeaderRead)
    requires pos <= |file| && ReadStep(t, file, pos, h, hb) == Stop(res)
    ensures ReadFields(t, file, pos, h, hb) == res
  {
  }

  /** The value half of one pass: `get_string` for a string field, else `struct.unpack` of 4 or 8 bytes. */
  method ReadFieldValue(t: Table, file: seq<byte>, at: nat, i: Field, h: Header, hb: nat) returns (st: Step)
    requires at <= |file|
    ensures st == ReadValue(t, file, at, i, h, hb)
  {
    if KindOf(t, i) == StringKind {
      var v := GetString(file, at);
      if v.StrTruncated? {
        return Stop(HeaderRead(h, hb, ReadFailed(Truncated), |file|));
      }
      var h' := h[i := if v.s.Some? then Some(Raw(v.s.value)) else None];
      return Continue(v.next, h', hb + v.n);
    }
    var size := Width(KindOf(t, i));
    if |file| - at < size {
      return Stop(HeaderRead(h, hb, ReadFailed(Truncated), |file|));
    }
    var h' := h[i := Some(NumberValue(KindOf(t, i), file[at..at + size]))];
    return Continue(at + size, h', hb + size);
  }

  // ---------------------------------------------------------------- the file object

  /** Exceptions of the reader: a missing attribute, arithmetic on a non-int, `/ 0`, `dtype`, numpy's checks. */
  datatype DataError =
    | MissingAttribute         // the AttributeError of an unopened file
    | TypeError
    | ZeroDivisionError
    | Unsupported(nbits: int)  // the RuntimeError of `dtype`
    | ValueError               // `frombuffer`, `reshape` or a shape mismatch

  /** The attributes of a `SigprocFile` that `nspectra` and `get_data` read. */
  datatype FileState = FileState(header: Header, hdrbytes: nat, mapped: bool, data: seq<byte>)

  /** `nspectra()` of a file in state s: the bytes after the header divided by the bytes per spectrum, as a float. */
  function SpectraCount(s: FileState): (r: Result<real, DataError>)
    ensures !s.mapped ==> r == Failure(MissingAttribute)
    ensures r.Success? ==>
      BytesPerSpectrum(s.header).Success? && BytesPerSpectrum(s.header).value != 0.0 &&
      r.value * BytesPerSpectrum(s.header).value == (|s.data| - s.hdrbytes) as real
    ensures s.mapped && BytesPerSpectrum(s.header).Success? && BytesPerSpectrum(s.header).value != 0.0 ==> r.Success?
    ensures s.mapped && BytesPerSpectrum(s.header).Success? && BytesPerSpectrum(s.header).value == 0.0 ==>
      r == Failure(ZeroDivisionError)
  {
    if !s.mapped then Failure(MissingAttribute)
    else
      var bps := BytesPerSpectrum(s.header);
      if bps.Failure? then Failure(bps.error)
      else if bps.value == 0.0 then Failure(ZeroDivisionError)
      else Success((|s.data| - s.hdrbytes) as real / bps.value)
  }

  /**
   * What `get_data(nstart, nsamp)` returns for a file in state s: the samples in bytes `[int(b0),
   * int(b1))` of the map, where `b0 = hdrbytes + nstart * bytes_per_spectrum`
   * and `b1` is `nsamp` spectra further on, cut into spectra of `nifs` rows
   * of `nchans` samples, keeping the first IF of each spectrum.
   */
  function ReadData(s: FileState, nstart: int, nsamp: int): (r: Result<seq<seq<Sample>>, DataError>)
    ensures BytesPerSpectrum(s.header).Failure? ==> r == Failure(BytesPerSpectrum(s.header).error)
    ensures BytesPerSpectrum(s.header).Success? && !s.mapped ==> r == Failure(MissingAttribute)
    ensures r.Success? ==> DType(s.header[NBITS]).Success? && Shape(s.header).Some?
    ensures BytesPerSpectrum(s.header).Success? && s.mapped && DType(s.header[NBITS]).Failure? ==>
      r == Failure(DType(s.header[NBITS]).error)
  {
    var bps := BytesPerSpectrum(s.header);
    if bps.Failure? then Failure(bps.error)
    else if !s.mapped then Failure(MissingAttribute)
    else
      var buf := Window(s.hdrbytes, SpectrumBits(s.header), nstart, nsamp, s.data);
      var dt := DType(s.header[NBITS]);
      if dt.Failure? then Failure(dt.error)
      else if |buf| % ItemSize(dt.value) != 0 then Failure(ValueError)
      else
        var items := Items(buf, dt.value);
        var w := Shape(s.header);
        if w.None? || |items| % MulNat(w.value.0, w.value.1) != 0 then Failure(ValueError)
        else Success(FirstIf(Chunks(Chunks(items, w.value.1), w.value.0)))
  }

  /**
   * A `SigprocFile`: its header attributes, `hdrbytes` and how `read_header`
   * ended, and the mapped file contents. A missing or empty file is not opened,
   * so it has neither `hdrbytes` nor a memory map (`mapped` is false); a status
   * of ReadFailed stands for the exception that the constructor propagates
   * (Open turns it into that exception).
   */
  class SigprocFile {
    var header: Header
    var hdrbytes: nat
    var status: ReadStatus
    var cursor: nat
    var mapped: bool
    var data: seq<byte>

    /** `SigprocFile(fname)` on a file with the given contents (empty for a missing file). */
    constructor (contents: seq<byte>)
      ensures data == contents && mapped == (|contents| != 0)
      ensures mapped ==> HeaderRead(header, hdrbytes, status, cursor) == DecodeHeader(Types, contents)
      ensures !mapped ==> header == EmptyHeader && hdrbytes == 0 && status == HeaderDone && cursor == 0
    {
      data, mapped := contents, |contents| != 0;
      if |contents| != 0 {
        var r := ReadHeader(Types, contents);
        header, hdrbytes, status, cursor := r.header, r.hdrbytes, r.status, r.next;
      } else {
        header, hdrbytes, status, cursor := EmptyHeader, 0, HeaderDone, 0;
      }
    }

    /** The attributes `nspectra` and `get_data` read. */
    function State(): FileState
      reads this
    {
      FileState(header, hdrbytes, mapped, data)
    }

    /** `nspectra()` on this file: the bytes after the header over the bytes per spectrum; an unopened file has no map. */
    function NSpectra(): (r: Result<real, DataError>)
      reads this
      ensures !mapped ==> r == Failure(MissingAttribute)
      ensures r.Success? ==> BytesPerSpectrum(header).Success? && r.value * BytesPerSpectrum(header).value == (|data| - hdrbytes) as real
    {
      SpectraCount(State())
    }

    /** `get_data(nstart, nsamp)` on this file: it needs the header's sizes, a map and a supported nbits. */
    function GetData(nstart: int, nsamp: int): (r: Result<seq<seq<Sample>>, DataError>)
      reads this
      ensures BytesPerSpectrum(header).Success? && !mapped ==> r == Failure(MissingAttribute)
      ensures r.Success? ==> BytesPerSpectrum(header).Success? && DType(header[NBITS]).Success? && Shape(header).Some?
    {
      ReadData(State(), nstart, nsamp)
    }

    /**
     * `unpack(nstart, nsamp)` as written: from nbits 8 on it is `get_data`;
     * below that, Python 3's true division makes `b0` and `b1` floats, and
     * slicing the map with them raises a TypeError (after `8 / nbits` has
     * raised a ZeroDivisionError for nbits 0).
     */
    function UnpackAsWritten(nstart: int, nsamp: int): (r: Result<seq<seq<Sample>>, DataError>)
      reads this
      ensures IntAttr(header[NBITS]).Success? && IntAttr(header[NBITS]).value >= 8 ==> r == GetData(nstart, nsamp)
    {
      var nbits := IntAttr(header[NBITS]);
      if nbits.Failure? then Failure(TypeError)
      else if nbits.value >= 8 then GetData(nstart, nsamp)
      else
        var bps := BytesPerSpectrum(header);
        if bps.Failure? then Failure(bps.error)
        else if !mapped then Failure(MissingAttribute)
        else if nbits.value == 0 then Failure(ZeroDivisionError)
        else Failure(TypeError)
    }

    /**
     * `unpack(nstart, nsamp)` with the integer division it evidently intends:
     * `get_data` from nbits 8 on; for 1-, 2- and 4-bit data, an array of
     * (nsamp, nifs, nchans) samples whose channel `k*fac + i` is sample i of
     * packed byte k, for `fac = 8 / nbits` samples per byte.
     */
    method Unpack(nstart: int, nsamp: int) returns (r: Result<Unpacked, DataError>)
      ensures IntAttr(header[NBITS]).Failure? ==> r == Failure(TypeError)
      ensures IntAttr(header[NBITS]).Success? && IntAttr(header[NBITS]).value >= 8 ==>
        if GetData(nstart, nsamp).Success? then r == Success(Wide(GetData(nstart, nsamp).value))
        else r == Failure(GetData(nstart, nsamp).error)
      ensures IntAttr(header[NBITS]).Success? && IntAttr(header[NBITS]).value < 8 ==>
        var plan := SubBytePlan(header, hdrbytes, mapped, data, nstart, nsamp);
        (plan.Failure? ==> r == Failure(plan.error)) &&
        (plan.Success? ==> r.Success? && r.value.Narrow? && fresh(r.value.a) && UnpackedFrom(plan.value, r.value.a))
    {
      var nbits := IntAttr(header[NBITS]);
      if nbits.Failure? {
        return Failure(TypeError);
      }
      if nbits.value >= 8 {
        var rows := GetData(nstart, nsamp);
        if rows.Failure? {
          return Failure(rows.error);
        }
        return Success(Wide(rows.value));
      }
      var plan := SubBytePlan(header, hdrbytes, mapped, data, nstart, nsamp);
      if plan.Failure? {
        return Failure(plan.error);
      }
      var a := UnpackBytes(plan.value);
      return Success(Narrow(a));
    }
  }

  /** Opening a file with these contents raises: it is not empty and `read_header` fails on it. */
  predicate HeaderRaises(t: Table, contents: seq<byte>) {
    |contents| != 0 && DecodeHeader(t, contents).status.ReadFailed?
  }

  /**
   * `SigprocFile(fname)` as the caller sees it: the exception of `read_header`
   * propagates out of the constructor, so there is either a file object whose
   * header read completed or stopped without a start marker, or the error.
   */
  method Open(contents: seq<byte>) returns (r: Result<SigprocFile, ReadError>)
    ensures HeaderRaises(Types, contents) ==> r == Failure(DecodeHeader(Types, contents).status.error)
    ensures !HeaderRaises(Types, contents) ==>
      r.Success? && fresh(r.value) && !r.value.status.ReadFailed? &&
      r.value.data == contents && r.value.mapped == (|contents| != 0) &&
      (r.value.mapped ==> HeaderRead(r.value.header, r.value.hdrbytes, r.value.status, r.value.cursor) == DecodeHeader(Types, contents)) &&
      (!r.value.mapped ==> r.value.header == EmptyHeader && r.value.hdrbytes == 0)
  {
    var f := new SigprocFile(contents);
    if f.status.ReadFailed? {
      return Failure(f.status.error);
    }
    return Success(f);
  }

  /** No file of the list is an object whose `read_header` raised: each came out of Open. */
  predicate AllOpened(files: seq<SigprocFile>)
    reads files
  {
    forall j :: 0 <= j < |files| ==> !files[j].status.ReadFailed?
  }

  // ---------------------------------------------------------------- geometry

  /** An attribute used in arithmetic: an int, or a TypeError for None or a non-number. */
  function IntAttr(v: Option<Value>): Result<int, DataError> {
    if v.Some? && v.value.Int? then Success(v.value.n) else Failure(TypeError)
  }

  /** `bytes_per_spectrum = nbits * nchans * nifs / 8`, true division. */
  function BytesPerSpectrum(h: Header): (r: Result<real, DataError>)
    ensures r.Success? <==> IntAttr(h[NBITS]).Success? && IntAttr(h[NCHANS]).Success? && IntAttr(h[NIFS]).Success?
    ensures r.Success? ==> 8.0 * r.value == SpectrumBits(h) as real
  {
    var nbits, nchans, nifs := IntAttr(h[NBITS]), IntAttr(h[NCHANS]), IntAttr(h[NIFS]);
    if nbits.Failure? || nchans.Failure? || nifs.Failure? then Failure(TypeError)
    else Success(SpectrumBits(h) as real / 8.0)
  }

  /** `nbits * nchans * nifs`: the bits in one spectrum, eight times `bytes_per_spectrum`. */
  function SpectrumBits(h: Header): int
    requires IntAttr(h[NBITS]).Success? && IntAttr(h[NCHANS]).Success? && IntAttr(h[NIFS]).Success?
  {
    IntAttr(h[NBITS]).value * IntAttr(h[NCHANS]).value * IntAttr(h[NIFS]).value
  }

  datatype SampleType = UInt8 | UInt16 | Float32

  /** `dtype`: uint8, uint16 or float32 for nbits 8, 16 or 32; a RuntimeError for another int. */
  function DType(nbits: Option<Value>): (r: Result<SampleType, DataError>)
    ensures r.Success? <==> nbits == Some(Int(8)) || nbits == Some(Int(16)) || nbits == Some(Int(32))
    ensures r.Success? ==> 8 * ItemSize(r.value) == nbits.value.n
    ensures r.Failure? && nbits.Some? && nbits.value.Int? ==> r.error == Unsupported(nbits.value.n)
  {
    match nbits
    case Some(Int(n)) =>
      if n == 8 then Success(UInt8) else if n == 16 then Success(UInt16) else if n == 32 then Success(Float32)
      else Failure(Unsupported(n))
    // "%d" % None (or of a str) raises a TypeError while formatting the message
    case _ => Failure(TypeError)
  }

  function ItemSize(dt: SampleType): (n: nat)
    ensures n > 0
  {
    match dt
    case UInt8 => 1
    case UInt16 => 2
    case Float32 => 4
  }

  /** A sample as numpy holds it: an unsigned integer, or the 4 bytes of a float32. */
  datatype Sample = Unsigned(n: nat) | Float(bits: seq<byte>)

  /** One item of `frombuffer`: a byte, a little-endian 16-bit value, or float32 bits. */
  function Item(dt: SampleType, chunk: seq<byte>): Sample {
    match dt
    case UInt8 => Unsigned(if |chunk| > 0 then chunk[0] else 0)
    case UInt16 => Unsigned(LeValue(chunk))
    case Float32 => Float(chunk)
  }

  /** `np.frombuffer(buf, dtype)` for a buffer whose length is a multiple of the item size. */
  function Items(buf: seq<byte>, dt: SampleType): (items: seq<Sample>) {
    var cs := Chunks(buf, ItemSize(dt));
    seq(|cs|, j requires 0 <= j < |cs| => Item(dt, cs[j]))
  }

  /** `(nifs, nchans)` when `reshape((-1, nifs, nchans))` can infer the first axis: both positive. */
  function Shape(h: Header): Option<(nat, nat)> {
    var nifs, nchans := IntAttr(h[NIFS]), IntAttr(h[NCHANS]);
    if nifs.Success? && nchans.Success? && nifs.value >= 1 && nchans.value >= 1 then Some((nifs.value, nchans.value))
    else None
  }

  /** s cut into consecutive pieces of w elements (a remainder shorter than w is dropped). */
  function Chunks<T>(s: seq<T>, w: nat): (r: seq<seq<T>>)
    requires w > 0
    decreases |s|
  {
    if |s| < w then [] else [s[..w]] + Chunks(s[w..], w)
  }

  /** `data[:, 0, :]`: the first row of each spectrum. */
  function FirstIf<T>(g: seq<seq<seq<T>>>): seq<seq<T>> {
    seq(|g|, k requires 0 <= k < |g| => if |g[k]| > 0 then g[k][0] else [])
  }

  /** `int(x)` of a float: truncation toward zero. */
  function Trunc(x: real): int {
    if x >= 0.0 then x.Floor else -((-x).Floor)
  }

  /** A Python slice bound against a length n: negative counts from the end, then clipped to [0, n]. */
  function Clip(i: int, n: nat): (r: nat)
    ensures r <= n
    ensures 0 <= i <= n ==> r == i
    ensures i < 0 && -i <= n ==> r == n + i
  {
    if i < 0 then (if i + n < 0 then 0 else i + n) else if i > n then n else i
  }

  /** `s[i:j]` with Python's slice semantics. */
  function PySlice<T>(s: seq<T>, i: int, j: int): seq<T> {
    var a, b := Clip(i, |s|), Clip(j, |s|);
    if a <= b then s[a..b] else []
  }

  /**
   * The bytes `self._mmdata[int(b0):int(b1)]` that `get_data` reads, for a
   * spectrum of `bits` bits: `b0 = hdrbytes + nstart * bits / 8` and
   * `b1 = b0 + nsamp * bits / 8` are multiples of 1/8, so `int` of each is a
   * division by 8 truncated toward zero (`TruncDiv8IsTrunc`).
   */
  function Window(hdrbytes: nat, bits: int, nstart: int, nsamp: int, data: seq<byte>): seq<byte> {
    PySlice(data, TruncDiv8(8 * hdrbytes + nstart * bits), TruncDiv8(8 * hdrbytes + nstart * bits + nsamp * bits))
  }

  /** `int(x / 8)`: division by 8 truncated toward zero. */
  function TruncDiv8(x: int): int {
    if x >= 0 then x / 8 else -((-x) / 8)
  }

  /** Division by 8 toward zero is `int()` of the exact quotient. */
  lemma {:induction false} TruncDiv8IsTrunc(x: int)
    ensures TruncDiv8(x) == Trunc(x as real / 8.0)
  {
    var y := if x >= 0 then x else -x;
    var q := y / 8;
    assert y == 8 * q + y % 8;
    assert q as real <= y as real / 8.0 < q as real + 1.0;
    assert (y as real / 8.0).Floor == q;
    if x < 0 {
      assert -(x as real / 8.0) == y as real / 8.0;
    }
  }

  /** `hdrbytes + k * bytes_per_spectrum` in eighths of a byte. */
  lemma {:induction false} OffsetInEighths(hdrbytes: nat, bits: int, k: int)
    ensures hdrbytes as real + k as real * (bits as real / 8.0) == (8 * hdrbytes + k * bits) as real / 8.0
  {
    assert k as real * (bits as real / 8.0) == (k * bits) as real / 8.0;
  }

  // ---------------------------------------------------------------- layout of get_data

  /** |s| / w pieces. */
  lemma {:induction false} ChunksLength<T>(s: seq<T>, w: nat)
    requires w > 0
    ensures |Chunks(s, w)| == |s| / w
    decreases |s|
  {
    if |s| < w {
      DivModUnique(|s|, w, 0, |s|);
    } else {
      ChunksLength(s[w..], w);
      DivModUnique(|s|, w, |s[w..]| / w + 1, |s[w..]| % w);
    }
  }

  /** Piece j is elements `j*w` to `(j+1)*w` of s. */
  lemma {:induction false} ChunksAt<T>(s: seq<T>, w: nat, j: nat)
    requires w > 0 && j < |Chunks(s, w)|
    ensures Pos(j, w) + w <= |s| && Chunks(s, w)[j] == s[Pos(j, w)..Pos(j, w) + w]
    decreases |s|
  {
    if j > 0 {
      ChunksAt(s[w..], w, j - 1);
    }
  }

  /**
   * Sample c of row k of `get_data` is item `(k*nifs)*nchans + c` of the
   * window, made of the item-size bytes at that position: row k is IF 0 of
   * spectrum k, and each row holds nchans samples.
   */
  lemma {:induction false} GetDataAt(st: FileState, nstart: int, nsamp: int, k: nat, c: nat)
    requires ReadData(st, nstart, nsamp).Success?
    requires k < |ReadData(st, nstart, nsamp).value| && c < Shape(st.header).value.1
    ensures var rows := ReadData(st, nstart, nsamp).value;
      var dt, w := DType(st.header[NBITS]).value, Shape(st.header).value;
      var buf := Window(st.hdrbytes, SpectrumBits(st.header), nstart, nsamp, st.data);
      var p := Pos(Pos(Pos(k, w.0), w.1) + c, ItemSize(dt));
      |rows[k]| == w.1 && p + ItemSize(dt) <= |buf| && rows[k][c] == Item(dt, buf[p..p + ItemSize(dt)])
  {
    var dt, w := DType(st.header[NBITS]).value, Shape(st.header).value;
    var buf := Window(st.hdrbytes, SpectrumBits(st.header), nstart, nsamp, st.data);
    var cs1 := Chunks(buf, ItemSize(dt));
    var items := Items(buf, dt);
    var cs2 := Chunks(items, w.1);
    var g := Chunks(cs2, w.0);
    assert ReadData(st, nstart, nsamp).value == FirstIf(g);
    ChunksAt(cs2, w.0, k);
    var m := Pos(k, w.0);
    assert g[k][0] == cs2[m];
    ChunksAt(items, w.1, m);
    var e := Pos(m, w.1) + c;
    assert cs2[m][c] == items[e];
    ChunksAt(buf, ItemSize(dt), e);
  }

  /** With whole spectra of n bytes, `get_data`'s window is spectra nstart to nstart + nsamp, clipped at the end. */
  lemma {:induction false} WindowOfSpectra(hb: nat, n: nat, nstart: nat, nsamp: nat, data: seq<byte>)
    ensures Window(hb, 8 * n, nstart, nsamp, data) == PySlice(data, hb + Pos(nstart, n), hb + Pos(nstart + nsamp, n))
  {
    PosAdd(nstart, nsamp, n);
    var x0, dx := Pos(nstart, n), Pos(nsamp, n);
    Eighths(nstart, n);
    Eighths(nsamp, n);
    assert TruncDiv8(8 * (hb + x0)) == hb + x0;
    assert TruncDiv8(8 * (hb + x0 + dx)) == hb + x0 + dx;
  }

  /** k spectra of 8n bits are 8 times k spectra of n bytes. */
  lemma {:induction false} Eighths(k: nat, n: nat)
    ensures k * (8 * n) == 8 * Pos(k, n)
  {
    PosIsProduct(k, n);
  }

  lemma {:induction false} PosAdd(a: nat, b: nat, n: nat)
    ensures Pos(a + b, n) == Pos(a, n) + Pos(b, n)
    decreases b
  {
    if b > 0 {
      PosAdd(a, b - 1, n);
    }
  }

  /** The header of an 8-bit, single-IF file with n channels. */
  predicate EightBit(h: Header, n: nat) {
    h[NBITS] == Some(Int(8)) && h[NIFS] == Some(Int(1)) && h[NCHANS] == Some(Int(n)) && n >= 1
  }

  /** Such a header has spectra of n bytes: `8 * n * 1 / 8`. */
  lemma {:induction false} EightBitSpectra(h: Header, n: nat)
    requires EightBit(h, n)
    ensures SpectrumBits(h) == 8 * n && BytesPerSpectrum(h) == Success(n as real)
  {
    assert SpectrumBits(h) == 8 * n;
  }

  /** An 8-bit single-IF file holding m whole spectra of n bytes after its header has `nspectra() == m`. */
  lemma {:induction false} NSpectraEightBit(st: FileState, n: nat, m: nat)
    requires st.mapped && EightBit(st.header, n) && |st.data| == st.hdrbytes + Pos(m, n)
    ensures SpectraCount(st) == Success(m as real)
  {
    EightBitSpectra(st.header, n);
    assert SpectraCount(st) == Success(Pos(m, n) as real / n as real);
    PosIsProduct(m, n);
    RealDiv(m, n);
  }

  /** m spectra of n bytes, divided by n bytes each, are m spectra. */
  lemma {:induction false} RealDiv(m: nat, n: nat)
    requires n > 0
    ensures (m * n) as real / n as real == m as real
  {
    assert (m * n) as real == (m as real) * (n as real);
  }

  /** The number of spectra `get_data(nstart, nsamp)` finds in a file of nrec whole spectra. */
  function Available(nrec: nat, nstart: nat, nsamp: nat): (m: nat)
    ensures m <= nsamp && (nstart < nrec ==> nstart + m <= nrec)
    ensures nstart + nsamp <= nrec ==> m == nsamp
    ensures nstart >= nrec ==> m == 0
  {
    if nstart >= nrec then 0 else if nstart + nsamp <= nrec then nsamp else nrec - nstart
  }

  /**
   * For an 8-bit single-IF file holding nrec whole spectra of n bytes after its
   * header, `get_data(nstart, nsamp)` succeeds with the spectra nstart to
   * nstart + nsamp - 1 that exist, none past the end of the file.
   */
  lemma {:induction false} GetDataSpectra(st: FileState, nstart: nat, nsamp: nat, n: nat, nrec: nat)
    requires st.mapped && EightBit(st.header, n) && |st.data| == st.hdrbytes + Pos(nrec, n)
    ensures ReadData(st, nstart, nsamp).Success?
    ensures |ReadData(st, nstart, nsamp).value| == Available(nrec, nstart, nsamp)
  {
    var hb, data := st.hdrbytes, st.data;
    var m := Available(nrec, nstart, nsamp);
    assert BytesPerSpectrum(st.header).Success? && SpectrumBits(st.header) == 8 * n;
    WindowOfSpectra(hb, n, nstart, nsamp, data);
    var buf := Window(hb, 8 * n, nstart, nsamp, data);
    SpectraSlice(hb, n, nstart, nsamp, nrec, data);
    assert |buf| == Pos(m, n);
    ChunksLength(buf, 1);
    var items := Items(buf, UInt8);
    assert DType(st.header[NBITS]) == Success(UInt8) && Shape(st.header) == Some((1, n));
    PosMod(m, n);
    assert MulNat(1, n) == n;
    assert |items| == Pos(m, n);
    var g := Chunks(Chunks(items, n), 1);
    assert ReadData(st, nstart, nsamp) == Success(FirstIf(g));
    ChunksLength(items, n);
    ChunksLength(Chunks(items, n), 1);
  }

  lemma {:induction false} PosMod(m: nat, n: nat)
    requires n > 0
    ensures Pos(m, n) % n == 0 && Pos(m, n) / n == m
  {
    if m > 0 {
      PosMod(m - 1, n);
      DivModUnique(Pos(m, n), n, m, 0);
    } else {
      DivModUnique(0, n, 0, 0);
    }
  }

  /** Sample c of row k of `get_data` on such a file is byte c of spectrum nstart + k. */
  lemma {:induction false} GetDataSample(st: FileState, nstart: nat, nsamp: nat, n: nat, nrec: nat, k: nat, c: nat)
    requires st.mapped && EightBit(st.header, n) && |st.data| == st.hdrbytes + Pos(nrec, n)
    requires k < Available(nrec, nstart, nsamp) && c < n
    ensures ReadData(st, nstart, nsamp).Success? && k < |ReadData(st, nstart, nsamp).value|
    ensures st.hdrbytes + Pos(nstart + k, n) + c < |st.data|
    ensures |ReadData(st, nstart, nsamp).value[k]| == n
    ensures ReadData(st, nstart, nsamp).value[k][c] == Unsigned(st.data[st.hdrbytes + Pos(nstart + k, n) + c])
  {
    GetDataSpectra(st, nstart, nsamp, n, nrec);
    EightBitAt(st, nstart, nsamp, n, k, c);
    WindowByte(st.hdrbytes, n, nstart, nsamp, nrec, st.data, k, c);
  }

  /** Byte c of the k-th spectrum of `get_data`'s window is byte c of spectrum nstart + k of the file. */
  lemma {:induction false} WindowByte(hb: nat, n: nat, nstart: nat, nsamp: nat, nrec: nat, data: seq<byte>, k: nat, c: nat)
    requires n >= 1 && |data| == hb + Pos(nrec, n)
    requires k < Available(nrec, nstart, nsamp) && c < n
    ensures var buf := Window(hb, 8 * n, nstart, nsamp, data);
      Pos(k, n) + c < |buf| && hb + Pos(nstart + k, n) + c < |data| &&
      buf[Pos(k, n) + c] == data[hb + Pos(nstart + k, n) + c]
  {
    WindowOfSpectra(hb, n, nstart, nsamp, data);
    SpectrumByte(hb, n, nstart, nsamp, nrec, data, k, c);
  }

  /** On an 8-bit single-IF file, sample c of row k is byte c of spectrum k of the window, as a number. */
  lemma {:induction false} EightBitAt(st: FileState, nstart: int, nsamp: int, n: nat, k: nat, c: nat)
    requires EightBit(st.header, n) && ReadData(st, nstart, nsamp).Success?
    requires k < |ReadData(st, nstart, nsamp).value| && c < n
    ensures var buf := Window(st.hdrbytes, 8 * n, nstart, nsamp, st.data);
      |ReadData(st, nstart, nsamp).value[k]| == n && Pos(k, n) + c < |buf| &&
      ReadData(st, nstart, nsamp).value[k][c] == Unsigned(buf[Pos(k, n) + c])
  {
    assert SpectrumBits(st.header) == 8 * n;
    assert DType(st.header[NBITS]).value == UInt8 && Shape(st.header).value == (1, n);
    GetDataAt(st, nstart, nsamp, k, c);
    PosOne(k);
    PosOne(Pos(k, n) + c);
  }

  /** Byte c of the k-th spectrum of the window is byte c of spectrum nstart + k of the file. */
  lemma {:induction false} SpectrumByte(hb: nat, n: nat, nstart: nat, nsamp: nat, nrec: nat, data: seq<byte>, k: nat, c: nat)
    requires n >= 1 && |data| == hb + Pos(nrec, n)
    requires k < Available(nrec, nstart, nsamp) && c < n
    ensures var buf := PySlice(data, hb + Pos(nstart, n), hb + Pos(nstart + nsamp, n));
      Pos(k, n) + c < |buf| && hb + Pos(nstart + k, n) + c < |data| &&
      buf[Pos(k, n) + c] == data[hb + Pos(nstart + k, n) + c]
  {
    var m := Available(nrec, nstart, nsamp);
    SpectraSlice(hb, n, nstart, nsamp, nrec, data);
    PosAdd(k + 1, m - k - 1, n);
    PosAdd(nstart, k, n);
  }

  lemma {:induction false} PosOne(x: nat)
    ensures Pos(x, 1) == x
  {
    if x > 0 {
      PosOne(x - 1);
    }
  }

  /** The window of whole spectra: from spectrum nstart (or the end) for m spectra. */
  lemma {:induction false} SpectraSlice(hb: nat, n: nat, nstart: nat, nsamp: nat, nrec: nat, data: seq<byte>)
    requires n >= 1 && |data| == hb + Pos(nrec, n)
    ensures var m := Available(nrec, nstart, nsamp);
      var buf := PySlice(data, hb + Pos(nstart, n), hb + Pos(nstart + nsamp, n));
      |buf| == Pos(m, n) &&
      forall j :: 0 <= j < |buf| ==> buf[j] == data[hb + Pos(nstart, n) + j]
  {
    var lo, hi := hb + Pos(nstart, n), hb + Pos(nstart + nsamp, n);
    PosAdd(nstart, nsamp, n);
    if nstart >= nrec {
      PosAdd(nrec, nstart - nrec, n);
      assert Clip(lo, |data|) == |data| && Clip(hi, |data|) == |data|;
    } else if nstart + nsamp <= nrec {
      PosAdd(nstart + nsamp, nrec - nstart - nsamp, n);
      assert Clip(lo, |data|) == lo && Clip(hi, |data|) == hi;
    } else {
      PosAdd(nstart, nrec - nstart, n);
      PosAdd(nrec, nstart + nsamp - nrec, n);
      assert Clip(lo, |data|) == lo && Clip(hi, |data|) == |data|;
    }
  }

  // ---------------------------------------------------------------- unpack

  /** What `unpack` returns: the rows of `get_data`, or the filled array of unpacked sub-byte samples. */
  datatype Unpacked = Wide(rows: seq<seq<Sample>>) | Narrow(a: array3<nat>)

  /** The packed bytes `unpack` read and the shape it fills: `d` has shape (nsamp, nifs, nchans / fac). */
  datatype Plan = Plan(buf: seq<byte>, nsamp: nat, nifs: nat, nchans: nat, nbits: nat)

  /** A shape `reshape` and the slice assignments accept: fac divides nchans and the bytes fill d exactly. */
  predicate ValidPlan(p: Plan) {
    SubByte(p.nbits) && p.nchans % Fac(p.nbits) == 0 &&
    |p.buf| == Pos(Pos(p.nsamp, p.nifs), p.nchans / Fac(p.nbits))
  }

  /**
   * The checks of the sub-byte path of `unpack` with integer offsets
   * `b0 = hdrbytes + nstart * bps` and `b1 = b0 + nsamp * bps`, where
   * `bps = nbits * nchans * nifs / 8` rounds down: the header arithmetic, the
   * map, `8 / nbits`, `reshape((nsamp, nifs, nchans / fac))` and the
   * assignment of each `nchans / fac`-wide d into the `i::fac` columns.
   */
  function SubBytePlan(h: Header, hdrbytes: nat, mapped: bool, data: seq<byte>, nstart: int, nsamp: int): (r: Result<Plan, DataError>)
    requires IntAttr(h[NBITS]).Success? && IntAttr(h[NBITS]).value < 8
    ensures r.Success? ==> ValidPlan(r.value) && r.value.nbits == IntAttr(h[NBITS]).value
    ensures r.Success? ==> IntAttr(h[NCHANS]).Success? && IntAttr(h[NIFS]).Success?
    ensures r.Success? ==> r.value.nsamp == nsamp && r.value.buf == PySlice(data, hdrbytes + nstart * SubByteBps(h), hdrbytes + nstart * SubByteBps(h) + nsamp * SubByteBps(h))
    ensures IntAttr(h[NCHANS]).Failure? || IntAttr(h[NIFS]).Failure? ==> r == Failure(TypeError)
    ensures IntAttr(h[NCHANS]).Success? && IntAttr(h[NIFS]).Success? && !mapped ==> r == Failure(MissingAttribute)
  {
    var nbits, nchans, nifs := IntAttr(h[NBITS]).value, IntAttr(h[NCHANS]), IntAttr(h[NIFS]);
    if nchans.Failure? || nifs.Failure? then Failure(TypeError)
    else if !mapped then Failure(MissingAttribute)
    else if nbits == 0 then Failure(ZeroDivisionError)
    else if nbits < 0 || !SubByte(nbits) then Failure(Unsupported(nbits))
    else
      var bps := SubByteBps(h);
      var b0 := hdrbytes + nstart * bps;
      var buf := PySlice(data, b0, b0 + nsamp * bps);
      var fac := Fac(nbits);
      if nsamp < 0 || nifs.value < 0 || nchans.value < 0 then Failure(ValueError)
      else
        var w := nchans.value / fac;
        if |buf| != Pos(Pos(nsamp, nifs.value), w) || nchans.value % fac != 0 then Failure(ValueError)
        else Success(Plan(buf, nsamp, nifs.value, nchans.value, nbits))
  }

  /** `nbits * nchans * nifs / 8` in whole bytes, rounded down. */
  function SubByteBps(h: Header): int
    requires IntAttr(h[NBITS]).Success? && IntAttr(h[NCHANS]).Success? && IntAttr(h[NIFS]).Success?
  {
    (IntAttr(h[NBITS]).value * IntAttr(h[NCHANS]).value * IntAttr(h[NIFS]).value) / 8
  }

  /** Packed byte `d[s, f, k]`. */
  function PackedByte(p: Plan, s: nat, f: nat, k: nat): byte
    requires ValidPlan(p) && s < p.nsamp && f < p.nifs && k < p.nchans / Fac(p.nbits)
  {
    PosIndex(s, p.nsamp, f, p.nifs);
    PosIndex(Pos(s, p.nifs) + f, Pos(p.nsamp, p.nifs), k, p.nchans / Fac(p.nbits));
    p.buf[Pos(Pos(s, p.nifs) + f, p.nchans / Fac(p.nbits)) + k]
  }

  /** Element k of piece x comes before piece X when x < X. */
  lemma {:induction false} PosIndex(x: nat, bound: nat, k: nat, w: nat)
    requires x < bound && k < w
    ensures Pos(x, w) + k < Pos(bound, w)
  {
    PosAdd(x + 1, bound - x - 1, w);
  }

  /** Every channel `k*fac + i` of a: sample i of packed byte k, `(d & mask) >> (i*nbits)`. */
  ghost predicate UnpackedFrom(p: Plan, a: array3<nat>)
    requires ValidPlan(p)
    reads a
  {
    a.Length0 == p.nsamp && a.Length1 == p.nifs && a.Length2 == p.nchans &&
    forall s, f, k, i :: 0 <= s < p.nsamp && 0 <= f < p.nifs && 0 <= k < p.nchans / Fac(p.nbits) && 0 <= i < Fac(p.nbits) ==>
      Column(k, i, Fac(p.nbits)) < p.nchans &&
      a[s, f, Column(k, i, Fac(p.nbits))] == Extract(PackedByte(p, s, f, k), p.nbits, i)
  }

  /** The `for i in range(fac)` loop of `unpack`, each pass a slice assignment to the columns `i::fac`. */
  method UnpackBytes(p: Plan) returns (a: array3<nat>)
    requires ValidPlan(p)
    ensures fresh(a) && UnpackedFrom(p, a)
  {
    var fac, w := Fac(p.nbits), p.nchans / Fac(p.nbits);
    a := new nat[p.nsamp, p.nifs, p.nchans];
    ColumnsFit(fac, w, p.nchans);
    for i := 0 to fac
      invariant forall s, f, k, j :: 0 <= s < p.nsamp && 0 <= f < p.nifs && 0 <= k < w && 0 <= j < i ==>
        a[s, f, Column(k, j, fac)] == Extract(PackedByte(p, s, f, k), p.nbits, j)
    {
      forall s, f, k | 0 <= s < p.nsamp && 0 <= f < p.nifs && 0 <= k < w {
        a[s, f, Column(k, i, fac)] := Extract(PackedByte(p, s, f, k), p.nbits, i);
      }
    }
  }

  /** Channel `k*fac + i`: sample i of packed byte k. */
  function Column(k: nat, i: nat, fac: nat): nat {
    Pos(k, fac) + i
  }

  /** The columns k*fac + i are distinct and inside the nchans = w*fac columns. */
  lemma {:induction false} ColumnsFit(fac: nat, w: nat, nchans: nat)
    requires fac > 0 && nchans % fac == 0 && w == nchans / fac
    ensures forall k: nat, i: nat :: k < w && i < fac ==> Column(k, i, fac) < nchans
    ensures forall k: nat, i: nat, k': nat, i': nat :: i < fac && i' < fac && Column(k, i, fac) == Column(k', i', fac) ==> k == k' && i == i'
  {
    ExactDiv(nchans, fac);
    forall k: nat, i: nat | k < w && i < fac ensures Column(k, i, fac) < nchans {
      PosIndex(k, w, i, fac);
    }
    forall k: nat, i: nat, k': nat, i': nat | i < fac && i' < fac && Column(k, i, fac) == Column(k', i', fac)
      ensures k == k' && i == i'
    {
      ColumnOf(k, i, fac);
      ColumnOf(k', i', fac);
    }
  }

  /** A multiple of fac is nchans / fac pieces of width fac. */
  lemma {:induction false} ExactDiv(n: nat, fac: nat)
    requires fac > 0 && n % fac == 0
    ensures Pos(n / fac, fac) == n
  {
    PosIsProduct(n / fac, fac);
    assert n == (n / fac) * fac;
  }

  /** Column k*fac + i splits back into packed byte k and sample i. */
  lemma {:induction false} ColumnOf(k: nat, i: nat, fac: nat)
    requires i < fac
    ensures Column(k, i, fac) / fac == k && Column(k, i, fac) % fac == i
  {
    PosIsProduct(k, fac);
    DivModUnique(Pos(k, fac) + i, fac, k, i);
  }

  /**
   * Every cell of the unpacked array is covered: channel c holds sample
   * `c % fac` of packed byte `c / fac`, and that sample is below 2^nbits.
   */
  lemma {:induction false} UnpackedCell(p: Plan, a: array3<nat>, s: nat, f: nat, c: nat)
    requires ValidPlan(p) && UnpackedFrom(p, a) && s < p.nsamp && f < p.nifs && c < p.nchans
    ensures c / Fac(p.nbits) < p.nchans / Fac(p.nbits)
    ensures a[s, f, c] == Extract(PackedByte(p, s, f, c / Fac(p.nbits)), p.nbits, c % Fac(p.nbits))
    ensures a[s, f, c] < Pow2(p.nbits)
  {
    var fac := Fac(p.nbits);
    var k, i := c / fac, c % fac;
    PosIsProduct(k, fac);
    assert Column(k, i, fac) == c;
    ExactDiv(p.nchans, fac);
    PosIsProduct(p.nchans / fac, fac);
    assert k < p.nchans / fac;
    ExtractBound(PackedByte(p, s, f, k), p.nbits, i);
  }

  /**
   * `unpack` as written: on a mapped file whose nbits is 1, 2 or 4 and whose
   * nchans and nifs are integers it raises a TypeError whatever the range asked for.
   */
  lemma {:induction false} SubByteUnpackFails(f: SigprocFile, nstart: int, nsamp: int)
    requires f.mapped && IntAttr(f.header[NBITS]).Success? && IntAttr(f.header[NBITS]).value in {1, 2, 4}
    requires IntAttr(f.header[NCHANS]).Success? && IntAttr(f.header[NIFS]).Success?
    ensures f.UnpackAsWritten(nstart, nsamp) == Failure(TypeError)
  {
    assert BytesPerSpectrum(f.header).Success?;
  }

  /** A 4-bit, 2-channel, single-IF header. */
  function FourBitHeader(): (h: Header)
    ensures IntAttr(h[NBITS]) == Success(4) && IntAttr(h[NCHANS]) == Success(2) && IntAttr(h[NIFS]) == Success(1)
  {
    EmptyHeader[NBITS := Some(Int(4))][NCHANS := Some(Int(2))][NIFS := Some(Int(1))]
  }

  /**
   * One 4-bit spectrum of two channels packed in the byte 0x21: with integer
   * offsets `unpack` reads that byte and splits it into the samples 1 and 2.
   */
  lemma {:induction false} FourBitSpectrum()
    ensures SubBytePlan(FourBitHeader(), 0, true, [0x21], 0, 1) == Success(Plan([0x21], 1, 1, 2, 4))
    ensures Extract(0x21, 4, 0) == 1 && Extract(0x21, 4, 1) == 2
  {
    var h := FourBitHeader();
    assert SubByteBps(h) == 1;
    assert PySlice([0x21], 0, 1) == [0x21];
    ExtractField(0x21, 4, 0);
    ExtractField(0x21, 4, 1);
    assert Pos(0, 4) == 0 && Pos(1, 4) == 4;
    ShrIsDiv(0x21, 4);
    assert Pow2(4) == 16;
  }
}
