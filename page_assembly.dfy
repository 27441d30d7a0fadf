/**
 * Page assembly and the page loop of dada_fildb (dada_fildb/dada_fildb.py):
 * `get_data`, which fills one ring-buffer page of shape (nbeam, nchans,
 * pagesize) with a block of spectra from every beam's filterbank, and the
 * loop that writes pages 0, 1, ... and marks the end of the data after
 * page `npage = ceil(nspectra / pagesize)`.
 */
module PageAssembly {
  import opened Wrappers
  import opened ByteCodec
  import opened SigprocHeader
  import opened SigprocReader

  // ---------------------------------------------------------------- order

  /** ASCII upper-casing, which is enough to decide `order.upper() == 'FT'` exactly: no other character upper-cases to F or T. */
  function Upper(c: char): char {
    if 'a' <= c <= 'z' then (c as int - 32) as char else c
  }

  /** `order.upper() == 'FT'`: the (time, frequency) block of a beam is transposed. */
  predicate Transposes(order: string)
    ensures Transposes(order) ==> |order| == 2 && (order[0] == 'F' || order[0] == 'f') && (order[1] == 'T' || order[1] == 't')
  {
    |order| == 2 && Upper(order[0]) == 'F' && Upper(order[1]) == 'T'
  }

  /** `'F' in order`: the leading axis is reversed; a lower-case f does not count, so of the FT spellings only an upper-case F flips. */
  predicate Flips(order: string)
    ensures Transposes(order) ==> (Flips(order) <==> order[0] == 'F')
  {
    'F' in order
  }

  /** The case-insensitive test accepts exactly the four spellings of FT. */
  lemma {:induction false} TransposesExactly(order: string)
    ensures Transposes(order) <==> order == "FT" || order == "Ft" || order == "fT" || order == "ft"
  {
    if |order| == 2 {
      assert Upper(order[0]) == 'F' <==> order[0] == 'F' || order[0] == 'f';
      assert Upper(order[1]) == 'T' <==> order[1] == 'T' || order[1] == 't';
      assert order == [order[0], order[1]];
    }
  }

  /** The reversal is case-sensitive: FT transposes and flips, fT only transposes, TF only flips. */
  lemma {:induction false} OrderCases()
    ensures Transposes("FT") && Flips("FT")
    ensures Transposes("fT") && !Flips("fT")
    ensures !Transposes("TF") && Flips("TF")
  {
    assert "FT"[0] == 'F' && "TF"[1] == 'F';
    assert "fT"[0] != 'F' && "fT"[1] != 'F';
  }

  // ---------------------------------------------------------------- one beam

  /** A block of spectra: `rows` of `width` channels each, as `get_data` of one file returns them. */
  datatype Block = Block(rows: seq<seq<Sample>>, width: nat)

  predicate WellShaped(b: Block) {
    forall k :: 0 <= k < |b.rows| ==> |b.rows[k]| == b.width
  }

  /** The shape of the block after the order transforms: transposition swaps the axes, reversal keeps them. */
  function Dims(b: Block, order: string): (nat, nat) {
    if Transposes(order) then (b.width, |b.rows|) else (|b.rows|, b.width)
  }

  /** Element [x][y] of `np.transpose(fil_data)` (if Transposes) after `[::-1]` (if Flips). */
  function Elem(b: Block, order: string, x: nat, y: nat): Sample
    requires WellShaped(b) && x < Dims(b, order).0 && y < Dims(b, order).1
  {
    var x' := if Flips(order) then Dims(b, order).0 - 1 - x else x;
    if Transposes(order) then b.rows[y][x'] else b.rows[x'][y]
  }

  /** numpy broadcasting along one axis: a target extent n accepts a source extent n or 1. */
  predicate Fits(a: nat, n: nat) {
    a == n || a == 1
  }

  /**
   * How many columns of the (nchans, pagesize) slot `data[i]` an (a, b) block
   * fills: all of them when `data[i] = fil_data` broadcasts, the first b when
   * only `data[i][:, :b] = fil_data` does, and None when both raise a ValueError.
   */
  function Placement(a: nat, b: nat, nchans: nat, pagesize: nat): (r: Option<nat>)
    ensures r.Some? <==> Fits(a, nchans) && (b <= pagesize || b == 1)
    ensures r.Some? && r.value == pagesize ==> b == pagesize || b == 1
    ensures r.Some? && r.value != pagesize ==> r.value == b < pagesize
  {
    if !Fits(a, nchans) then None
    else if b == pagesize || b == 1 then Some(pagesize)
    else if b < pagesize then Some(b)
    else None
  }

  /** Every row of a successful `get_data` has the file's nchans channels. */
  lemma {:induction false} RowsShaped(st: FileState, nstart: int, nsamp: int)
    requires ReadData(st, nstart, nsamp).Success?
    ensures Shape(st.header).Some?
    ensures forall k :: 0 <= k < |ReadData(st, nstart, nsamp).value| ==>
      |ReadData(st, nstart, nsamp).value[k]| == Shape(st.header).value.1
  {
    var rows := ReadData(st, nstart, nsamp).value;
    forall k | 0 <= k < |rows|
      ensures |rows[k]| == Shape(st.header).value.1
    {
      GetDataAt(st, nstart, nsamp, k, 0);
    }
  }

  /** `f.get_data(page * pagesize, pagesize)` of a file in state st, as a block of its nchans columns. */
  function BeamRead(st: FileState, page: int, pagesize: nat): (r: Result<Block, DataError>)
    ensures r.Failure? <==> ReadData(st, page * pagesize, pagesize).Failure?
    ensures r.Failure? ==> r.error == ReadData(st, page * pagesize, pagesize).error
    ensures r.Success? ==> WellShaped(r.value) && r.value.rows == ReadData(st, page * pagesize, pagesize).value
  {
    var rows := ReadData(st, page * pagesize, pagesize);
    if rows.Failure? then Failure(rows.error)
    else
      RowsShaped(st, page * pagesize, pagesize);
      Success(Block(rows.value, Shape(st.header).value.1))
  }

  /**
   * The beam was read and its block fits the slot: neither `get_data` nor the
   * assignment raises (a block that is read is always well shaped).
   */
  predicate Fitted(r: Result<Block, DataError>, order: string, nchans: nat, pagesize: nat) {
    r.Success? && WellShaped(r.value) && Placement(Dims(r.value, order).0, Dims(r.value, order).1, nchans, pagesize).Some?
  }

  /** What `get_data` raises. */
  datatype PageError =
    | NoBeams                                 // the IndexError of `filterbanks[0]`
    | ZerosFailed                             // `np.zeros` refusing nchans (not an int, or negative) or pagesize
    | BeamFailed(beam: nat, error: DataError) // beam i's own `get_data`
    | Mismatch(beam: nat)                     // the ValueError of both assignments for beam i

  /** The exception for beam i, whose block was not read or does not fit. */
  function BeamError(r: Result<Block, DataError>, order: string, nchans: nat, pagesize: nat, i: nat): PageError
    requires !Fitted(r, order, nchans, pagesize)
  {
    if r.Failure? then BeamFailed(i, r.error) else Mismatch(i)
  }

  /** The zero `np.zeros` fills the page with. */
  const Zero: Sample := Unsigned(0)

  /**
   * The value `get_data` leaves at data[i][c][t] for a block that fits: the
   * transformed block, broadcast along an axis of extent 1, in the columns the
   * assignment fills, and 0 in the others (and everywhere for a block that
   * does not fit, where `get_data` raises instead).
   */
  function Cell(r: Result<Block, DataError>, order: string, nchans: nat, pagesize: nat, c: nat, t: nat): (x: Sample)
    requires c < nchans && t < pagesize
    ensures x != Zero ==>
      Fitted(r, order, nchans, pagesize) && t < Placement(Dims(r.value, order).0, Dims(r.value, order).1, nchans, pagesize).value
  {
    if !Fitted(r, order, nchans, pagesize) then Zero
    else
    var d := Dims(r.value, order);
    var cols := Placement(d.0, d.1, nchans, pagesize).value;
    if t < cols then Elem(r.value, order, if d.0 == 1 then 0 else c, if d.1 == 1 then 0 else t) else Zero
  }

  // ---------------------------------------------------------------- get_data

  /** The states of the beams' files, in beam order. */
  function States(files: seq<SigprocFile>): (states: seq<FileState>)
    reads files
    ensures |states| == |files| && forall j :: 0 <= j < |files| ==> states[j] == files[j].State()
  {
    seq(|files|, j requires 0 <= j < |files| reads files => files[j].State())
  }

  /** `f.get_data(page * pagesize, pagesize)` for every beam, in beam order. */
  function BeamReads(states: seq<FileState>, page: int, pagesize: nat): (rs: seq<Result<Block, DataError>>)
    ensures |rs| == |states| && forall j :: 0 <= j < |states| ==> rs[j] == BeamRead(states[j], page, pagesize)
  {
    seq(|states|, j requires 0 <= j < |states| => BeamRead(states[j], page, pagesize))
  }

  /** The first beam from i on that does not fit, as the exception `get_data` raises for it. */
  function FirstBad(rs: seq<Result<Block, DataError>>, order: string, nchans: nat, pagesize: nat, i: nat): (e: Option<PageError>)
    requires i <= |rs|
    decreases |rs| - i
  {
    if i == |rs| then None
    else if !Fitted(rs[i], order, nchans, pagesize) then Some(BeamError(rs[i], order, nchans, pagesize, i))
    else FirstBad(rs, order, nchans, pagesize, i + 1)
  }

  /** No beam from i on fails exactly when every one of them fits. */
  lemma {:induction false} FirstBadNone(rs: seq<Result<Block, DataError>>, order: string, nchans: nat, pagesize: nat, i: nat)
    requires i <= |rs|
    ensures FirstBad(rs, order, nchans, pagesize, i).None? <==> forall j :: i <= j < |rs| ==> Fitted(rs[j], order, nchans, pagesize)
    decreases |rs| - i
  {
    if i < |rs| {
      FirstBadNone(rs, order, nchans, pagesize, i + 1);
    }
  }

  /** Whether `get_data(filterbanks, page, pagesize, order)` returns (with the page's nchans) or what it raises. */
  function PageShape(states: seq<FileState>, page: int, pagesize: int, order: string): (r: Result<nat, PageError>)
    ensures r.Success? ==> pagesize >= 0 && states != [] && IntAttr(states[0].header[NCHANS]) == Success(r.value)
    ensures r.Success? ==> forall j :: 0 <= j < |states| ==>
      Fitted(BeamReads(states, page, pagesize)[j], order, r.value, pagesize)
  {
    if states == [] then Failure(NoBeams)
    else
      var nc := IntAttr(states[0].header[NCHANS]);
      if nc.Failure? || nc.value < 0 || pagesize < 0 then Failure(ZerosFailed)
      else
        FirstBadNone(BeamReads(states, page, pagesize), order, nc.value, pagesize, 0);
        match FirstBad(BeamReads(states, page, pagesize), order, nc.value, pagesize, 0)
        case None => Success(nc.value)
        case Some(e) => Failure(e)
  }

  /** The contents of a page, indexed [beam][channel][column]. */
  type Page = seq<seq<seq<Sample>>>

  /** The values held by a (nbeam, nchans, pagesize) array. */
  function Contents(a: array3<Sample>): (v: Page)
    reads a
    ensures |v| == a.Length0
    ensures forall i :: 0 <= i < a.Length0 ==> |v[i]| == a.Length1
    ensures forall i, c :: 0 <= i < a.Length0 && 0 <= c < a.Length1 ==> |v[i][c]| == a.Length2
    ensures forall i, c, t :: 0 <= i < a.Length0 && 0 <= c < a.Length1 && 0 <= t < a.Length2 ==> v[i][c][t] == a[i, c, t]
  {
    seq(a.Length0, i requires 0 <= i < a.Length0 reads a =>
      seq(a.Length1, c requires 0 <= c < a.Length1 reads a =>
        seq(a.Length2, t requires 0 <= t < a.Length2 reads a => a[i, c, t])))
  }

  /** v is the page `get_data` returns: shape (nbeam, nchans, pagesize), beam i's cells from beam i's block alone. */
  ghost predicate PageIs(states: seq<FileState>, page: int, pagesize: int, order: string, v: Page)
    ensures PageIs(states, page, pagesize, order, v) ==>
      pagesize >= 0 && states != [] && |v| == |states| && IntAttr(states[0].header[NCHANS]) == Success(|v[0]|) &&
      forall j :: 0 <= j < |states| ==> Fitted(BeamReads(states, page, pagesize)[j], order, |v[0]|, pagesize)
  {
    PageShape(states, page, pagesize, order).Success? &&
    var nchans, rs := PageShape(states, page, pagesize, order).value, BeamReads(states, page, pagesize);
    |v| == |states| &&
    (forall i :: 0 <= i < |v| ==> |v[i]| == nchans && forall c :: 0 <= c < nchans ==> |v[i][c]| == pagesize) &&
    forall i, c, t :: 0 <= i < |states| && 0 <= c < nchans && 0 <= t < pagesize ==>
      v[i][c][t] == Cell(rs[i], order, nchans, pagesize, c, t)
  }

  /**
   * `get_data(filterbanks, page, pagesize, order)`: a zero page, then for each
   * beam in turn its block written into `data[i]` (or into the columns it has).
   */
  method GetPage(files: seq<SigprocFile>, ghost states: seq<FileState>, page: int, pagesize: int, order: string)
    returns (r: Result<array3<Sample>, PageError>)
    requires states == States(files) && AllOpened(files)
    ensures r.Failure? <==> PageShape(states, page, pagesize, order).Failure?
    ensures r.Failure? ==> r.error == PageShape(states, page, pagesize, order).error
    ensures r.Success? ==> fresh(r.value) && PageIs(states, page, pagesize, order, Contents(r.value))
  {
    if |files| == 0 {
      return Failure(NoBeams);
    }
    var nc := IntAttr(files[0].header[NCHANS]);
    if nc.Failure? || nc.value < 0 || pagesize < 0 {
      return Failure(ZerosFailed);
    }
    var data := new Sample[|files|, nc.value, pagesize]((_, _, _) => Zero);
    var e := FillBeams(data, files, states, page, order);
    if e.Some? {
      return Failure(e.value);
    }
    return Success(data);
  }

  /** The loop of `get_data` over the beams, on the zero page data. */
  method FillBeams(data: array3<Sample>, files: seq<SigprocFile>, ghost states: seq<FileState>, page: int, order: string)
    returns (e: Option<PageError>)
    requires states == States(files) && data.Length0 == |files|
    requires forall j, c, t :: 0 <= j < |files| && 0 <= c < data.Length1 && 0 <= t < data.Length2 ==> data[j, c, t] == Zero
    modifies data
    ensures e == FirstBad(BeamReads(states, page, data.Length2), order, data.Length1, data.Length2, 0)
    ensures e.None? ==> forall j :: 0 <= j < |files| ==> Fitted(BeamReads(states, page, data.Length2)[j], order, data.Length1, data.Length2)
    ensures e.None? ==> forall j, c, t :: 0 <= j < |files| && 0 <= c < data.Length1 && 0 <= t < data.Length2 ==>
      data[j, c, t] == Cell(BeamReads(states, page, data.Length2)[j], order, data.Length1, data.Length2, c, t)
  {
    var nchans, ps := data.Length1, data.Length2;
    ghost var rs := BeamReads(states, page, ps);
    for i := 0 to |files|
      invariant FirstBad(rs, order, nchans, ps, 0) == FirstBad(rs, order, nchans, ps, i)
      invariant forall j, c, t :: 0 <= j < |files| && 0 <= c < nchans && 0 <= t < ps ==>
        data[j, c, t] == (if j < i then Cell(rs[j], order, nchans, ps, c, t) else Zero)
    {
      var b := BeamRead(files[i].State(), page, ps);
      assert b == rs[i];
      e := PlaceBeam(data, i, b, order);
      FirstBadStep(rs, order, nchans, ps, i);
      if e.Some? {
        return;
      }
    }
    FirstBadNone(rs, order, nchans, ps, 0);
    return None;
  }

  /** The search for the first bad beam moves past a beam that fits and stops at one that does not. */
  lemma {:induction false} FirstBadStep(rs: seq<Result<Block, DataError>>, order: string, nchans: nat, pagesize: nat, i: nat)
    requires i < |rs|
    ensures Fitted(rs[i], order, nchans, pagesize) ==>
      FirstBad(rs, order, nchans, pagesize, i) == FirstBad(rs, order, nchans, pagesize, i + 1)
    ensures !Fitted(rs[i], order, nchans, pagesize) ==>
      FirstBad(rs, order, nchans, pagesize, i) == Some(BeamError(rs[i], order, nchans, pagesize, i))
  {
  }

  /** One pass of the loop of `get_data`: beam i's block b written into the zero slot `data[i]`. */
  method PlaceBeam(data: array3<Sample>, i: nat, b: Result<Block, DataError>, order: string) returns (e: Option<PageError>)
    requires i < data.Length0 && (b.Success? ==> WellShaped(b.value))
    requires forall c, t :: 0 <= c < data.Length1 && 0 <= t < data.Length2 ==> data[i, c, t] == Zero
    modifies data
    ensures e.None? <==> Fitted(b, order, data.Length1, data.Length2)
    ensures e.Some? ==> e.value == BeamError(b, order, data.Length1, data.Length2, i)
    ensures forall j, c, t :: 0 <= j < data.Length0 && 0 <= c < data.Length1 && 0 <= t < data.Length2 ==>
      data[j, c, t] == if j == i then Cell(b, order, data.Length1, data.Length2, c, t) else old(data[j, c, t])
  {
    var nchans, pagesize := data.Length1, data.Length2;
    if b.Failure? {
      return Some(BeamFailed(i, b.error));
    }
    var d := Dims(b.value, order);
    var cols := Placement(d.0, d.1, nchans, pagesize);
    if cols.None? {
      return Some(Mismatch(i));
    }
    forall c, t | 0 <= c < nchans && 0 <= t < cols.value {
      data[i, c, t] := Elem(b.value, order, if d.0 == 1 then 0 else c, if d.1 == 1 then 0 else t);
    }
    return None;
  }

  // ---------------------------------------------------------------- FT pages of 8-bit beams

  /** The block of an 8-bit single-IF beam of n channels, transposed, fits an (n, pagesize) slot. */
  lemma {:induction false} TransposedFits(st: FileState, page: nat, pagesize: nat, order: string, n: nat, nrec: nat)
    requires Transposes(order)
    requires st.mapped && EightBit(st.header, n) && |st.data| == st.hdrbytes + Pos(nrec, n)
    ensures Fitted(BeamRead(st, page, pagesize), order, n, pagesize)
    ensures Dims(BeamRead(st, page, pagesize).value, order) == (n, Available(nrec, Pos(page, pagesize), pagesize))
  {
    PosIsProduct(page, pagesize);
    GetDataSpectra(st, Pos(page, pagesize), pagesize, n, nrec);
  }

  /**
   * Order FT (fT, without the reversal) on an 8-bit single-IF beam of n
   * channels holding nrec spectra: channel c of column t is channel n-1-c (c
   * for fT) of spectrum page*pagesize + t while that spectrum exists, and 0
   * after the last one on a short final page; when a single spectrum is left
   * it fills every column.
   */
  lemma {:induction false} TransposedCell(st: FileState, page: nat, pagesize: nat, order: string, n: nat, nrec: nat, c: nat, t: nat)
    requires Transposes(order)
    requires st.mapped && EightBit(st.header, n) && |st.data| == st.hdrbytes + Pos(nrec, n)
    requires c < n && t < pagesize
    ensures Cell(BeamRead(st, page, pagesize), order, n, pagesize, c, t) ==
      SpectraSample(st, n, nrec, Pos(page, pagesize), pagesize, if Flips(order) then n - 1 - c else c, t)
  {
    var nstart := Pos(page, pagesize);
    TransposedFits(st, page, pagesize, order, n, nrec);
    var b := BeamRead(st, page, pagesize).value;
    TransposedBlockCell(b, order, n, pagesize, c, t);
    var m, ch := Available(nrec, nstart, pagesize), if Flips(order) then n - 1 - c else c;
    var s := if m == 1 then 0 else t;
    if s < m {
      BeamSample(st, page, pagesize, n, nrec, s, ch);
    }
    SpectraSampleCases(st, n, nrec, nstart, pagesize, ch, t);
  }

  /** Row s of the block read from an 8-bit single-IF beam is spectrum page*pagesize + s of the file. */
  lemma {:induction false} BeamSample(st: FileState, page: nat, pagesize: nat, n: nat, nrec: nat, s: nat, ch: nat)
    requires st.mapped && EightBit(st.header, n) && |st.data| == st.hdrbytes + Pos(nrec, n)
    requires s < Available(nrec, Pos(page, pagesize), pagesize) && ch < n
    ensures BeamRead(st, page, pagesize).Success? && s < |BeamRead(st, page, pagesize).value.rows|
    ensures BeamRead(st, page, pagesize).value.rows[s][ch] == SpectrumSample(st, n, Pos(page, pagesize) + s, ch)
  {
    var nstart := Pos(page, pagesize);
    PosIsProduct(page, pagesize);
    GetDataSample(st, nstart, pagesize, n, nrec, s, ch);
    var rows := ReadData(st, nstart, pagesize).value;
    assert BeamRead(st, page, pagesize).value.rows == rows;
    SpectrumInFile(st, n, nrec, nstart + s, ch);
    assert rows[s][ch] == SpectrumSample(st, n, nstart + s, ch);
  }

  /** A transposed block of n channels and at most pagesize rows, placed in an (n, pagesize) slot. */
  lemma {:induction false} TransposedBlockCell(b: Block, order: string, n: nat, pagesize: nat, c: nat, t: nat)
    requires Transposes(order) && WellShaped(b) && b.width == n && |b.rows| <= pagesize && c < n && t < pagesize
    requires Fitted(Success(b), order, n, pagesize)
    ensures var m, ch := |b.rows|, if Flips(order) then n - 1 - c else c;
      var s := if m == 1 then 0 else t;
      Cell(Success(b), order, n, pagesize, c, t) == if s < m then b.rows[s][ch] else Zero
  {
  }

  /**
   * Channel ch of column t of a page of pagesize spectra from nstart on, read
   * from an 8-bit single-IF file of n channels holding nrec spectra: spectrum
   * nstart + t while it exists and 0 after the last one, except that a single
   * remaining spectrum fills every column.
   */
  function SpectraSample(st: FileState, n: nat, nrec: nat, nstart: nat, pagesize: nat, ch: nat, t: nat): Sample {
    var m := Available(nrec, nstart, pagesize);
    var s := if m == 1 then 0 else t;
    if s < m then SpectrumSample(st, n, nstart + s, ch) else Zero
  }

  /** SpectraSample by cases on whether column t has a spectrum. */
  lemma {:induction false} SpectraSampleCases(st: FileState, n: nat, nrec: nat, nstart: nat, pagesize: nat, ch: nat, t: nat)
    ensures var m := Available(nrec, nstart, pagesize);
      var s := if m == 1 then 0 else t;
      SpectraSample(st, n, nrec, nstart, pagesize, ch, t) == if s < m then SpectrumSample(st, n, nstart + s, ch) else Zero
  {
  }

  /** Byte ch of spectrum k of an 8-bit single-IF file of n channels, as a sample; 0 when the file has no such byte. */
  function SpectrumSample(st: FileState, n: nat, k: nat, ch: nat): Sample {
    var at := st.hdrbytes + Pos(k, n) + ch;
    if at < |st.data| then Unsigned(st.data[at]) else Zero
  }

  /** Every spectrum the file holds has all n of its bytes present, so SpectrumSample reads them. */
  lemma {:induction false} SpectrumInFile(st: FileState, n: nat, nrec: nat, k: nat, ch: nat)
    requires |st.data| == st.hdrbytes + Pos(nrec, n) && k < nrec && ch < n
    ensures st.hdrbytes + Pos(k, n) + ch < |st.data|
    ensures SpectrumSample(st, n, k, ch) == Unsigned(st.data[st.hdrbytes + Pos(k, n) + ch])
  {
    PosAdd(k + 1, nrec - k - 1, n);
  }

  /** Beams that are all 8-bit single-IF files of n channels always make a page in order FT or fT. */
  lemma {:induction false} TransposedPage(states: seq<FileState>, page: nat, pagesize: nat, order: string, n: nat, nrecs: seq<nat>)
    requires Transposes(order) && states != [] && |nrecs| == |states|
    requires forall j :: 0 <= j < |states| ==>
      states[j].mapped && EightBit(states[j].header, n) && |states[j].data| == states[j].hdrbytes + Pos(nrecs[j], n)
    ensures PageShape(states, page, pagesize, order) == Success(n)
  {
    var rs := BeamReads(states, page, pagesize);
    forall j | 0 <= j < |states|
      ensures Fitted(rs[j], order, n, pagesize)
    {
      TransposedFits(states[j], page, pagesize, order, n, nrecs[j]);
    }
    FirstBadNone(rs, order, n, pagesize, 0);
  }

  /**
   * The page `get_data` returns for beams that are 8-bit single-IF files of n
   * channels, order FT: beam i's cell (c, t) is byte n-1-c of spectrum
   * page*pagesize + t of beam i, or 0 past its last spectrum.
   */
  lemma {:induction false} FTPageCell(states: seq<FileState>, page: nat, pagesize: nat, n: nat, nrecs: seq<nat>, v: Page, i: nat, c: nat, t: nat)
    requires |nrecs| == |states|
    requires forall j :: 0 <= j < |states| ==>
      states[j].mapped && EightBit(states[j].header, n) && |states[j].data| == states[j].hdrbytes + Pos(nrecs[j], n)
    requires PageIs(states, page, pagesize, "FT", v) && i < |states| && c < n && t < pagesize
    ensures |v| == |states| && |v[i]| == n && |v[i][c]| == pagesize
    ensures v[i][c][t] == SpectraSample(states[i], n, nrecs[i], Pos(page, pagesize), pagesize, n - 1 - c, t)
  {
    OrderCases();
    TransposedPage(states, page, pagesize, "FT", n, nrecs);
    PageCell(states, page, pagesize, "FT", v, i, c, t);
    TransposedCell(states[i], page, pagesize, "FT", n, nrecs[i], c, t);
  }

  /** Cell (c, t) of beam i of a page that `get_data` returns comes from beam i's own block. */
  lemma {:induction false} PageCell(states: seq<FileState>, page: int, pagesize: int, order: string, v: Page, i: nat, c: nat, t: nat)
    requires PageIs(states, page, pagesize, order, v)
    requires i < |states| && c < PageShape(states, page, pagesize, order).value && t < pagesize
    ensures |v| == |states| && |v[i]| == PageShape(states, page, pagesize, order).value && |v[i][c]| == pagesize
    ensures v[i][c][t] == Cell(BeamRead(states[i], page, pagesize), order, |v[i]|, pagesize, c, t)
  {
    assert BeamReads(states, page, pagesize)[i] == BeamRead(states[i], page, pagesize);
  }

  // ---------------------------------------------------------------- the page loop

  /** `np.ceil` of a real: the least integer at or above x. */
  function Ceil(x: real): (k: int)
    ensures (k - 1) as real < x <= k as real
  {
    -((-x).Floor)
  }

  /** `int(np.ceil(nspectra / pagesize))`; a float divided by the int 0 raises ZeroDivisionError. */
  function NumPages(nspectra: real, pagesize: int): (r: Result<int, DataError>)
    ensures r.Failure? <==> pagesize == 0
    ensures r.Failure? ==> r.error == ZeroDivisionError
    ensures r.Success? ==> (r.value - 1) as real < nspectra / pagesize as real <= r.value as real
  {
    if pagesize == 0 then Failure(ZeroDivisionError) else Success(Ceil(nspectra / pagesize as real))
  }

  /** For whole spectra and pages, `npage` counts the pages, the last one possibly short: (m + pagesize - 1) div pagesize. */
  lemma {:induction false} NumPagesWhole(m: nat, pagesize: nat)
    requires pagesize > 0
    ensures NumPages(m as real, pagesize) == Success((m + pagesize - 1) / pagesize)
  {
    var q := (m + pagesize - 1) / pagesize;
    DivModUnique(m + pagesize - 1, pagesize, q, (m + pagesize - 1) % pagesize);
    PosIsProduct(q, pagesize);
    assert (q - 1) * pagesize < m <= q * pagesize;
    ScaledBounds(m, pagesize, q);
    CeilUnique(m as real / pagesize as real, q);
  }

  /** The only integer k with k - 1 < x <= k is Ceil(x). */
  lemma {:induction false} CeilUnique(x: real, q: int)
    requires (q - 1) as real < x <= q as real
    ensures Ceil(x) == q
  {
    var k := Ceil(x);
    assert (k - 1) as real < q as real && (q - 1) as real < k as real;
  }

  /** q - 1 < m / p <= q, from (q - 1) * p < m <= q * p. */
  lemma {:induction false} ScaledBounds(m: nat, p: nat, q: int)
    requires p > 0 && (q - 1) * p < m <= q * p
    ensures (q - 1) as real < m as real / p as real <= q as real
  {
    var x := m as real / p as real;
    assert x * p as real == m as real;
    assert ((q - 1) * p) as real == (q - 1) as real * p as real;
    assert (q * p) as real == q as real * p as real;
  }

  /**
   * The PSRDADA writer as the loop sees it: the pages copied into its buffers
   * in order, the page counts at which the end of data was marked, and how many
   * more buffers it hands out.
   */
  class RingWriter {
    var pages: seq<Page>
    var marks: seq<nat>
    var slots: nat

    constructor (capacity: nat)
      ensures pages == [] && marks == [] && slots == capacity
    {
      pages, marks, slots := [], [], capacity;
    }

    /** `for buffer in writer` yields another buffer: the end of data is not marked and a buffer is free. */
    predicate Open()
      reads this
    {
      marks == [] && slots > 0
    }

    /** `np.asarray(buffer)[:] = page.flatten()`: the page goes into the next buffer. */
    method Fill(page: array3<Sample>)
      requires Open()
      modifies this
      ensures pages == old(pages) + [Contents(page)] && marks == old(marks) && slots == old(slots) - 1
    {
      pages, slots := pages + [Contents(page)], slots - 1;
    }

    /** `writer.markEndOfData()`: the data ends after the pages written so far. */
    method MarkEndOfData()
      modifies this
      ensures marks == old(marks) + [|pages|] && pages == old(pages) && slots == old(slots)
    {
      marks := marks + [|pages|];
    }
  }

  /** What the page loop raises. */
  datatype RunError =
    | NoFiles                              // `filterbanks[0]` of an empty list
    | SpectraFailed(error: DataError)      // `nspectra()` of the first file
    | PagesFailed(error: DataError)        // the division by pagesize
    | PageFailed(page: nat, pageError: PageError)

  /** `npage = int(np.ceil(filterbanks[0].nspectra() / pagesize))`. */
  function PageCount(states: seq<FileState>, pagesize: int): (r: Result<int, RunError>)
    ensures states == [] ==> r == Failure(NoFiles)
    ensures r.Success? ==>
      states != [] && SpectraCount(states[0]).Success? && pagesize != 0 &&
      (r.value - 1) as real < SpectraCount(states[0]).value / pagesize as real <= r.value as real
  {
    if states == [] then Failure(NoFiles)
    else
      var ns := SpectraCount(states[0]);
      if ns.Failure? then Failure(SpectraFailed(ns.error))
      else
        var np := NumPages(ns.value, pagesize);
        if np.Failure? then Failure(PagesFailed(np.error)) else Success(np.value)
  }

  /** The number of pages the loop writes when no page fails: npage if the ring lasts that long, else every buffer it has. */
  function PagesWritten(npage: int, slots: nat): nat {
    if 1 <= npage <= slots then npage else slots
  }

  /**
   * The opening loop of `dada_fildb`: `SigprocFile(f)` for each file in turn;
   * the first exception of `read_header` ends it.
   */
  method OpenAll(contents: seq<seq<byte>>) returns (r: Result<seq<SigprocFile>, ReadError>)
    ensures r.Success? ==>
      |r.value| == |contents| && AllOpened(r.value) && forall j :: 0 <= j < |contents| ==> r.value[j].data == contents[j]
    ensures r.Success? <==> forall j :: 0 <= j < |contents| ==> !HeaderRaises(Types, contents[j])
    ensures r.Failure? ==>
      exists j :: 0 <= j < |contents| && HeaderRaises(Types, contents[j]) && DecodeHeader(Types, contents[j]).status.error == r.error
  {
    var files: seq<SigprocFile> := [];
    while |files| < |contents|
      invariant |files| <= |contents| && AllOpened(files)
      invariant forall j :: 0 <= j < |files| ==> files[j].data == contents[j]
      invariant forall j :: 0 <= j < |files| ==> !HeaderRaises(Types, contents[j])
    {
      var f := Open(contents[|files|]);
      if f.Failure? {
        return Failure(f.error);
      }
      files := files + [f.value];
    }
    return Success(files);
  }

  /**
   * The loop of `dada_fildb`: page 0, 1, ... of the input files into the
   * writer's buffers, and `markEndOfData` once, right after page npage.
   */
  method Run(files: seq<SigprocFile>, order: string, pagesize: int, writer: RingWriter) returns (r: Result<nat, RunError>)
    requires AllOpened(files) && writer.pages == [] && writer.marks == []
    modifies writer
    ensures var states := States(files);
      PageCount(states, pagesize).Failure? ==>
      r == Failure(PageCount(states, pagesize).error) && writer.pages == [] && writer.marks == []
    ensures var states := States(files);
      forall p :: 0 <= p < |writer.pages| ==> PageIs(states, p, pagesize, order, writer.pages[p])
    ensures var states := States(files);
      r.Success? ==> (PageCount(states, pagesize).Success? &&
      var npage := PageCount(states, pagesize).value;
      r.value == |writer.pages| == PagesWritten(npage, old(writer.slots)) &&
      writer.marks == (if 1 <= npage <= old(writer.slots) then [npage] else []))
    ensures var states := States(files);
      r.Failure? && PageCount(states, pagesize).Success? ==>
      (r.error.PageFailed? && r.error.page == |writer.pages| &&
       r.error.page < PagesWritten(PageCount(states, pagesize).value, old(writer.slots)) &&
       PageShape(states, r.error.page, pagesize, order) == Failure(r.error.pageError))
  {
    ghost var states := States(files);
    if |files| == 0 {
      return Failure(NoFiles);
    }
    var ns := files[0].NSpectra();
    if ns.Failure? {
      return Failure(SpectraFailed(ns.error));
    }
    var np := NumPages(ns.value, pagesize);
    if np.Failure? {
      return Failure(PagesFailed(np.error));
    }
    r := WritePages(files, states, order, pagesize, np.value, writer);
  }

  /**
   * The `for buffer in writer` loop of `dada_fildb`: page 0, 1, ... into the
   * next buffer while the ring hands one out, `markEndOfData` right after page
   * npage, and the first exception of `get_data` propagated.
   */
  method WritePages(files: seq<SigprocFile>, ghost states: seq<FileState>, order: string, pagesize: int, npage: int,
                    writer: RingWriter)
    returns (r: Result<nat, RunError>)
    requires states == States(files) && AllOpened(files) && writer.pages == [] && writer.marks == []
    modifies writer
    ensures forall p :: 0 <= p < |writer.pages| ==> PageIs(states, p, pagesize, order, writer.pages[p])
    ensures r.Success? ==> (r.value == |writer.pages| == PagesWritten(npage, old(writer.slots)) &&
      writer.marks == (if 1 <= npage <= old(writer.slots) then [npage] else []))
    ensures r.Failure? ==>
      (r.error.PageFailed? && r.error.page == |writer.pages| && r.error.page < PagesWritten(npage, old(writer.slots)) &&
       PageShape(states, r.error.page, pagesize, order) == Failure(r.error.pageError))
  {
    var page: nat := 0;
    ghost var done: seq<Page> := [];
    while writer.Open()
      invariant writer.pages == done && |done| == page && writer.slots == old(writer.slots) - page
      invariant 1 <= npage ==> page <= npage
      invariant writer.marks == (if 1 <= npage <= page then [npage] else [])
      invariant forall p :: 0 <= p < page ==> PageIs(states, p, pagesize, order, done[p])
      decreases writer.slots
    {
      ghost var v;
      var e;
      e, v := Step(files, states, page, pagesize, order, npage, writer);
      if e.Some? {
        return Failure(PageFailed(page, e.value));
      }
      PagesExtend(states, pagesize, order, done, v);
      done := done + [v];
      page := page + 1;
    }
    return Success(page);
  }

  /** A page that `get_data` returns, written after pages 0 to |done| - 1, is page |done|. */
  lemma {:induction false} PagesExtend(states: seq<FileState>, pagesize: int, order: string, done: seq<Page>, v: Page)
    requires forall p :: 0 <= p < |done| ==> PageIs(states, p, pagesize, order, done[p])
    requires PageIs(states, |done|, pagesize, order, v)
    ensures forall p :: 0 <= p < |done| + 1 ==> PageIs(states, p, pagesize, order, (done + [v])[p])
  {
    forall p | 0 <= p < |done| + 1
      ensures PageIs(states, p, pagesize, order, (done + [v])[p])
    {
      if p < |done| {
        assert (done + [v])[p] == done[p];
      }
    }
  }

  /**
   * One pass of the loop of `dada_fildb`: page `page` into the next buffer,
   * then `markEndOfData` if the count of pages reaches npage; the pages
   * already written keep their contents, and nothing changes when `get_data`
   * raises.
   */
  method Step(files: seq<SigprocFile>, ghost states: seq<FileState>, page: nat, pagesize: int, order: string, npage: int,
               writer: RingWriter)
    returns (e: Option<PageError>, ghost v: Page)
    requires states == States(files) && AllOpened(files) && writer.Open() && |writer.pages| == page
    modifies writer
    ensures e.Some? <==> PageShape(states, page, pagesize, order).Failure?
    ensures e.Some? ==> (e.value == PageShape(states, page, pagesize, order).error &&
      writer.pages == old(writer.pages) && writer.marks == old(writer.marks) && writer.slots == old(writer.slots))
    ensures e.None? ==> (writer.pages == old(writer.pages) + [v] && PageIs(states, page, pagesize, order, v) &&
      writer.slots == old(writer.slots) - 1 &&
      writer.marks == old(writer.marks) + (if page + 1 == npage then [npage] else []))
  {
    var a := GetPage(files, states, page, pagesize, order);
    if a.Failure? {
      return Some(a.error), [];
    }
    v := Contents(a.value);
    writer.Fill(a.value);
    if page + 1 == npage {
      writer.MarkEndOfData();
    }
    e := None;
  }

  /**
   * The run of the package's test: two 8-bit single-IF beams of 384 channels
   * holding 3072 spectra each, pages of 1024 spectra in order FT: three full
   * pages, then the end of data.
   */
  method TestRun(files: seq<SigprocFile>, writer: RingWriter) returns (r: Result<nat, RunError>)
    requires |files| == 2 && AllOpened(files)
    requires forall j :: 0 <= j < 2 ==>
      files[j].mapped && EightBit(files[j].header, 384) && |files[j].data| == files[j].hdrbytes + 384 * 3072
    requires writer.pages == [] && writer.marks == [] && writer.slots >= 3
    modifies writer
    ensures r == Success(3) && |writer.pages| == 3 && writer.marks == [3]
  {
    TestPages(States(files));
    r := Run(files, "FT", 1024, writer);
  }

  /** The test's beams make three pages, each of which holds beams of 384 channels. */
  lemma {:induction false} TestPages(states: seq<FileState>)
    requires |states| == 2
    requires forall j :: 0 <= j < 2 ==>
      states[j].mapped && EightBit(states[j].header, 384) && |states[j].data| == states[j].hdrbytes + 384 * 3072
    ensures PageCount(states, 1024) == Success(3)
    ensures forall p: nat :: PageShape(states, p, 1024, "FT") == Success(384)
  {
    var nrecs, n := [3072, 3072], 384;
    PosIsProduct(nrecs[0], n);
    NSpectraEightBit(states[0], n, nrecs[0]);
    NumPagesWhole(nrecs[0], 1024);
    OrderCases();
    forall p: nat
      ensures PageShape(states, p, 1024, "FT") == Success(n)
    {
      TransposedPage(states, p, 1024, "FT", n, nrecs);
    }
  }
}
