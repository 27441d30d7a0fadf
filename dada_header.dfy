/**
 * `create_header` of dada_fildb.py: the PSRDADA header, a dict of str values
 * built from the attributes of the first filterbank file, the number of beams
 * and the page size. The dict is filled in source order and then every value
 * is turned into a str: bytes are decoded as UTF-8, anything else that is not
 * already a str goes through `str()`.
 */
module DadaHeader {
  import opened Wrappers
  import opened ByteCodec
  import opened SigprocHeader
  import opened SigprocReader
  import opened PyText

  // ---------------------------------------------------------------- Python values

  /** A value that goes into the header dict: None, a str, bytes, an int or a float (by its 8 bytes). */
  datatype PyValue = PyNone | PyStr(s: string) | PyBytes(b: seq<byte>) | PyInt(i: int) | PyFloat(blob: Blob8)

  /** `str()` of a float, which this model does not spell out. */
  type FloatText = Blob8 -> string

  /**
   * The exceptions of `create_header`: one from the attribute arithmetic,
   * astropy's `Time` refusing an MJD that is not a number, or a failed `.decode()`.
   */
  datatype CreateError = Raised(error: DataError) | TimeRejected | UnicodeDecodeError

  /** A str attribute is held by its UTF-8 encoding, so it always decodes again. */
  predicate TextsDecode(h: Header) {
    forall i: Field :: h[i].Some? && h[i].value.Text? ==> Utf8Decode(h[i].value.utf8).Some?
  }

  /** The Python value of an attribute. */
  function Attr(v: Option<Value>): (p: PyValue)
    requires v.Some? && v.value.Text? ==> Utf8Decode(v.value.utf8).Some?
    ensures v.Some? && v.value.Text? ==> p.PyStr? && Utf8Encode(p.s) == v.value.utf8
  {
    match v
    case None => PyNone
    case Some(Text(u)) => EncodeDecode(u); PyStr(Utf8Decode(u).value)
    case Some(Raw(b)) => PyBytes(b)
    case Some(Int(n)) => PyInt(n)
    case Some(Double(d)) => PyFloat(d)
  }

  /** `str(v)`: an int reads back with `int()`, bytes come out as their `b'...'` repr. */
  function Str(v: PyValue, floatText: FloatText): (r: string)
    ensures v.PyInt? ==> IsIntText(r) && ParseInt(r) == v.i
    ensures v.PyBytes? ==> |r| >= 3 && r[0] == 'b'
  {
    match v
    case PyNone => "None"
    case PyStr(s) => s
    case PyBytes(b) => BytesRepr(b)
    case PyInt(i) => IntRoundTrip(i); IntToString(i)
    case PyFloat(d) => floatText(d)
  }

  /** One step of the final loop: bytes are decoded, a str is kept, anything else becomes `str(v)`. */
  function Coerced(v: PyValue, floatText: FloatText): (r: Result<string, CreateError>)
    ensures r.Failure? ==> v.PyBytes? && r.error == UnicodeDecodeError
    ensures v.PyStr? ==> r == Success(v.s)
  {
    match v
    case PyBytes(b) =>
      (match Utf8Decode(b)
       case None => Failure(UnicodeDecodeError)
       case Some(s) => Success(s))
    case PyStr(s) => Success(s)
    case _ => Success(Str(v, floatText))
  }

  /** What each kind of value turns into, and that only undecodable bytes fail. */
  lemma {:induction false} CoercedValue(v: PyValue, floatText: FloatText)
    ensures Coerced(v, floatText).Failure? <==> v.PyBytes? && Utf8Decode(v.b).None?
    ensures Coerced(v, floatText).Failure? ==> Coerced(v, floatText).error == UnicodeDecodeError
    ensures v.PyBytes? && Coerced(v, floatText).Success? ==> Utf8Encode(Coerced(v, floatText).value) == v.b
    ensures v.PyStr? ==> Coerced(v, floatText) == Success(v.s)
    ensures v.PyInt? ==>
      IsIntText(Coerced(v, floatText).value) && ParseInt(Coerced(v, floatText).value) == v.i
    ensures v.PyNone? ==> Coerced(v, floatText) == Success("None")
    ensures !v.PyBytes? ==> Coerced(v, floatText) == Success(Str(v, floatText))
  {
    match v
    case PyBytes(b) =>
      if Utf8Decode(b).Some? {
        EncodeDecode(b);
      }
    case PyInt(i) =>
      IntRoundTrip(i);
    case _ =>
  }

  // ---------------------------------------------------------------- the RA and DEC strings

  /**
   * `f'{s[:2]}:{s[3:5]}:{s[6:]}'`, as written: for six characters or more
   * the length stays and the colons sit at positions 2 and 5; a string of
   * at most two characters just gains two colons.
   */
  function HmsAsWritten(s: string): (r: string)
    ensures |s| >= 6 ==> |r| == |s| && r[2] == ':' && r[5] == ':'
    ensures |s| <= 2 ==> r == s + "::"
  {
    PySlice(s, 0, 2) + ":" + PySlice(s, 3, 5) + ":" + PySlice(s, 6, |s|)
  }

  /**
   * As written, the slices overwrite the characters at positions 2 and 5 with
   * the colons, as if `s` already had separators there.
   */
  lemma {:induction false} HmsAsWrittenOverwrites(s: string)
    requires |s| >= 6
    ensures var r := HmsAsWritten(s);
      |r| == |s| && forall i :: 0 <= i < |s| ==> r[i] == (if i == 2 || i == 5 then ':' else s[i])
  {
    assert HmsAsWritten(s) == s[..2] + ":" + s[3..5] + ":" + s[6..];
  }

  /** So `str(123456.7)`, the HHMMSS.S form of 12h34m56.7s, comes out without its 3 and its 6. */
  lemma {:induction false} HmsAsWrittenDropsDigits()
    ensures HmsAsWritten("123456.7") == "12:45:.7"
    ensures Hms("123456.7") == "12:34:56.7"
  {
    assert PySlice("123456.7", 3, 5) == "45";
    assert PySlice("123456.7", 6, 8) == ".7";
    assert PySlice("123456.7", 2, 4) == "34";
    assert PySlice("123456.7", 4, 8) == "56.7";
  }

  /**
   * The HHMMSS (or DDMMSS) digits split in pairs: two characters, a colon,
   * two, a colon, the rest; from four characters on the string grows by the
   * two colons, at positions 2 and 5.
   */
  function Hms(s: string): (r: string)
    ensures |s| >= 4 ==> |r| == |s| + 2 && r[2] == ':' && r[5] == ':'
    ensures |s| <= 2 ==> r == s + "::"
  {
    PySlice(s, 0, 2) + ":" + PySlice(s, 2, 4) + ":" + PySlice(s, 4, |s|)
  }

  /** The corrected form only inserts the colons: removing them gives the string back. */
  lemma {:induction false} HmsRoundTrip(s: string)
    requires |s| >= 4
    ensures var r := Hms(s);
      |r| == |s| + 2 && r[2] == ':' && r[5] == ':' && r[..2] + r[3..5] + r[6..] == s
  {
    var r := Hms(s);
    assert r == s[..2] + ":" + s[2..4] + ":" + s[4..];
    assert r[..2] == s[..2] && r[3..5] == s[2..4] && r[6..] == s[4..];
    assert s == s[..2] + s[2..4] + s[4..];
  }

  // ---------------------------------------------------------------- the dict

  /** SCIENCE_MODE: 0 (I + TAB) for more than one beam, 2 (I + IAB) otherwise. */
  function ScienceMode(nbeam: int): int {
    if nbeam > 1 then 0 else 2
  }

  /** An int or a float, the only values the float arithmetic accepts. */
  predicate Numeric(v: Option<Value>) {
    v.Some? && (v.value.Int? || v.value.Double?)
  }

  /**
   * The exception, if any, of the float arithmetic before the dict is
   * complete: `nchans * foff` at line 12 and `fch1 + bw - foff` at line 15 need
   * numbers, `Time(tstart, format='mjd')` at line 30 refuses a `tstart` that
   * is not a number, `nspectra() * tsamp` at line 33 raises what `nspectra`
   * raises and then needs a numeric `tsamp`.
   */
  function FloatLinesError(st: FileState): (e: Option<CreateError>)
    ensures e.None? ==> IntAttr(st.header[NCHANS]).Success? && IntAttr(st.header[NCHANS]).value != 0
  {
    var h := st.header;
    if !Numeric(h[NCHANS]) || !Numeric(h[FOFF]) || !Numeric(h[FCH1]) then Some(Raised(TypeError))
    else if !Numeric(h[TSTART]) then Some(TimeRejected)
    else if SpectraCount(st).Failure? then Some(Raised(SpectraCount(st).error))
    else if !Numeric(h[TSAMP]) then Some(Raised(TypeError))
    else None
  }

  /** The i-th key of the dict, in the order `create_header` inserts them. */
  function Key(i: nat): string
    requires i < 24
  {
    match i
    case 0 => "SOURCE"
    case 1 => "RA"
    case 2 => "RA_HMS"
    case 3 => "DEC"
    case 4 => "DEC_HMS"
    case 5 => "MJD_START"
    case 6 => "LST_START"
    case 7 => "TELESCOPE"
    case 8 => "INSTRUMENT"
    case 9 => "TSAMP"
    case 10 => "NCHAN"
    case 11 => "SAMPLES_PER_BATCH"
    case 12 => "PADDED_SIZE"
    case 13 => "NBIT"
    case 14 => "NDIM"
    case 15 => "NPOL"
    case 16 => "IN_USE"
    case 17 => "RESOLUTION"
    case 18 => "TRANSFER_SIZE"
    case 19 => "AZ_START"
    case 20 => "ZA_START"
    case 21 => "SCIENCE_CASE"
    case 22 => "PARSET"
    case _ => "SCIENCE_MODE"
  }

  /**
   * The value stored under `Key(i)` for a file whose `nchans` is the int
   * `nchans`: an attribute, a str, or an int.
   */
  function DictValue(h: Header, nchans: int, nbeam: int, pagesize: int, floatText: FloatText, i: nat): (r: PyValue)
    requires TextsDecode(h) && i < 24
    ensures !r.PyStr? && !r.PyInt? ==> i == 0 || i == 1 || i == 3 || i == 5 || i == 9 || i == 19 || i == 20
    ensures (i == 2 || i == 4) ==> r.PyStr?
  {
    match i
    case 0 => Attr(h[SOURCE_NAME])
    case 1 => Attr(h[SRC_RAJ])
    case 2 => PyStr(HmsAsWritten(Str(Attr(h[SRC_RAJ]), floatText)))
    case 3 => Attr(h[SRC_DEJ])
    case 4 => PyStr(HmsAsWritten(Str(Attr(h[SRC_DEJ]), floatText)))
    case 5 => Attr(h[TSTART])
    case 6 => PyInt(0)
    case 7 => PyStr("WSRT")
    case 8 => PyStr("ARTS")
    case 9 => Attr(h[TSAMP])
    case 10 => PyInt(nchans)
    case 11 => PyInt(pagesize)
    case 12 => PyInt(pagesize)
    case 13 => PyInt(8)
    case 14 => PyInt(2)
    case 15 => PyInt(2)
    case 16 => PyInt(1)
    case 17 => PyInt(pagesize * nchans * nbeam)
    case 18 => PyInt(pagesize * nchans * nbeam)
    case 19 => Attr(h[AZ_START])
    case 20 => Attr(h[ZA_START])
    case 21 => PyInt(4)
    case 22 => PyStr("noparset")
    case _ => PyInt(ScienceMode(nbeam))
  }

  /**
   * The dict before the final loop, in insertion order. The entries computed
   * in floating point (UTC_START, SCANLEN, FREQ, BW, CHANNEL_BANDWIDTH,
   * MIN_FREQUENCY and BYTES_PER_SECOND) are not part of it.
   */
  function DictEntries(h: Header, nchans: int, nbeam: int, pagesize: int, floatText: FloatText): (es: seq<(string, PyValue)>)
    requires TextsDecode(h)
    ensures |es| == 24
  {
    seq(24, i requires 0 <= i < 24 => (Key(i), DictValue(h, nchans, nbeam, pagesize, floatText, i)))
  }

  /** The dict `create_header` builds before its final loop, or the exception raised on the way. */
  function HeaderDict(st: FileState, nbeam: int, pagesize: int, floatText: FloatText): Result<seq<(string, PyValue)>, CreateError>
    requires TextsDecode(st.header)
  {
    match FloatLinesError(st)
    case Some(e) => Failure(e)
    case None => Success(DictEntries(st.header, IntAttr(st.header[NCHANS]).value, nbeam, pagesize, floatText))
  }

  /** The final loop over the entries: each value turned into text, stopping at the first that cannot be. */
  function CoerceEntries(es: seq<(string, PyValue)>, floatText: FloatText): (r: Result<seq<(string, string)>, CreateError>)
    ensures r.Success? ==> |r.value| == |es|
    decreases |es|
  {
    if es == [] then Success([])
    else
      match CoerceEntries(es[..|es| - 1], floatText)
      case Failure(e) => Failure(e)
      case Success(done) =>
        match Coerced(es[|es| - 1].1, floatText)
        case Failure(e) => Failure(e)
        case Success(s) => Success(done + [(es[|es| - 1].0, s)])
  }

  /** The header `create_header` returns for a file in state st, or the exception it raises. */
  function CreatedHeader(st: FileState, nbeam: int, pagesize: int, floatText: FloatText): (r: Result<seq<(string, string)>, CreateError>)
    requires TextsDecode(st.header)
    ensures r.Success? ==> |r.value| == 24
  {
    match HeaderDict(st, nbeam, pagesize, floatText)
    case Failure(e) => Failure(e)
    case Success(es) => CoerceEntries(es, floatText)
  }

  /** The dict entries with their text values, as the loop writes them back. */
  function AsPyStr(d: seq<(string, string)>): (es: seq<(string, PyValue)>)
    ensures |es| == |d|
  {
    seq(|d|, i requires 0 <= i < |d| => (d[i].0, PyStr(d[i].1)))
  }

  // ---------------------------------------------------------------- the final loop

  /** The loop keeps the keys and coerces each value on its own. */
  lemma {:induction false} CoerceEntriesAt(es: seq<(string, PyValue)>, floatText: FloatText)
    requires CoerceEntries(es, floatText).Success?
    ensures var d := CoerceEntries(es, floatText).value;
      |d| == |es| && forall i :: 0 <= i < |es| ==> d[i].0 == es[i].0 && Coerced(es[i].1, floatText) == Success(d[i].1)
    decreases |es|
  {
    if es != [] {
      CoerceEntriesAt(es[..|es| - 1], floatText);
    }
  }

  /** The loop fails exactly when some value cannot be coerced, and then with a UnicodeDecodeError. */
  lemma {:induction false} CoerceEntriesFails(es: seq<(string, PyValue)>, floatText: FloatText)
    ensures CoerceEntries(es, floatText).Failure? <==>
      exists i :: 0 <= i < |es| && Coerced(es[i].1, floatText).Failure?
    ensures CoerceEntries(es, floatText).Failure? ==> CoerceEntries(es, floatText).error == UnicodeDecodeError
    decreases |es|
  {
    if es != [] {
      var init, last := es[..|es| - 1], es[|es| - 1];
      CoerceEntriesFails(init, floatText);
      CoercedValue(last.1, floatText);
      if exists i :: 0 <= i < |init| && Coerced(init[i].1, floatText).Failure? {
        var i :| 0 <= i < |init| && Coerced(init[i].1, floatText).Failure?;
        assert es[i] == init[i];
      }
      if exists i :: 0 <= i < |es| && Coerced(es[i].1, floatText).Failure? {
        var i :| 0 <= i < |es| && Coerced(es[i].1, floatText).Failure?;
        if i < |init| {
          assert init[i] == es[i];
        }
      }
    }
  }

  /** The loop is idempotent: running it over the header it produced changes nothing. */
  lemma {:induction false} CoerceEntriesIdempotent(d: seq<(string, string)>, floatText: FloatText)
    ensures CoerceEntries(AsPyStr(d), floatText) == Success(d)
    decreases |d|
  {
    if d != [] {
      var init := d[..|d| - 1];
      assert AsPyStr(d)[..|d| - 1] == AsPyStr(init);
      CoerceEntriesIdempotent(init, floatText);
      assert init + [d[|d| - 1]] == d;
    }
  }

  /** One more entry coerced: the loop over the longer prefix. */
  lemma {:induction false} CoerceEntriesStep(es: seq<(string, PyValue)>, i: nat, floatText: FloatText)
    requires i < |es| && CoerceEntries(es[..i], floatText).Success? && Coerced(es[i].1, floatText).Success?
    ensures CoerceEntries(es[..i + 1], floatText) ==
      Success(CoerceEntries(es[..i], floatText).value + [(es[i].0, Coerced(es[i].1, floatText).value)])
  {
    assert es[..i + 1][..i] == es[..i];
  }

  /** A failing entry fails the loop over every prefix that reaches it. */
  lemma {:induction false} CoerceEntriesStop(es: seq<(string, PyValue)>, i: nat, floatText: FloatText)
    requires i < |es| && CoerceEntries(es[..i], floatText).Success? && Coerced(es[i].1, floatText).Failure?
    ensures CoerceEntries(es, floatText) == Failure(Coerced(es[i].1, floatText).error)
    decreases |es| - i
  {
    if i + 1 == |es| {
      assert es[..i] == es[..|es| - 1];
    } else {
      assert es[..|es| - 1][..i] == es[..i] && es[..|es| - 1][i] == es[i];
      CoerceEntriesStop(es[..|es| - 1], i, floatText);
    }
  }

  /**
   * `for k, v in header.items(): ... header[k] = v` over the dict's entries
   * held in a: each value is rewritten as a str in turn, stopping at the
   * first bytes value that does not decode. `done` entries have been rewritten.
   */
  method CoerceAll(a: array<(string, PyValue)>, floatText: FloatText) returns (err: Option<CreateError>, done: nat)
    modifies a
    ensures done <= a.Length && (err.None? <==> done == a.Length)
    ensures CoerceEntries(old(a[..])[..done], floatText).Success?
    ensures a[..done] == AsPyStr(CoerceEntries(old(a[..])[..done], floatText).value)
    ensures a[done..] == old(a[..])[done..]
    ensures CoerceEntries(old(a[..]), floatText) ==
      if err.None? then CoerceEntries(old(a[..])[..done], floatText) else Failure(err.value)
  {
    ghost var es := a[..];
    done := 0;
    while done < a.Length
      invariant done <= a.Length
      invariant CoerceEntries(es[..done], floatText).Success?
      invariant a[..done] == AsPyStr(CoerceEntries(es[..done], floatText).value)
      invariant a[done..] == es[done..]
    {
      assert a[done] == es[done];
      var c := Coerced(a[done].1, floatText);
      if c.Failure? {
        CoerceEntriesStop(es, done, floatText);
        return Some(c.error), done;
      }
      CoerceEntriesStep(es, done, floatText);
      ghost var before := CoerceEntries(es[..done], floatText).value;
      a[done] := (a[done].0, PyStr(c.value));
      assert a[..done + 1] == a[..done] + [a[done]];
      assert AsPyStr(before + [(es[done].0, c.value)]) == AsPyStr(before) + [(es[done].0, PyStr(c.value))];
      done := done + 1;
    }
    assert es[..done] == es;
    err := None;
  }

  /**
   * `create_header(filterbank, nbeam, pagesize)` on the file f: the dict is
   * built and its values rewritten in place, then handed back as a list of
   * key and str pairs.
   */
  method CreateHeader(f: SigprocFile, nbeam: int, pagesize: int, floatText: FloatText)
    returns (r: Result<seq<(string, string)>, CreateError>)
    requires TextsDecode(f.header) && !f.status.ReadFailed?
    ensures r == CreatedHeader(f.State(), nbeam, pagesize, floatText)
  {
    var d := HeaderDict(f.State(), nbeam, pagesize, floatText);
    if d.Failure? {
      return Failure(d.error);
    }
    var es := d.value;
    var a := new (string, PyValue)[|es|](i requires 0 <= i < |es| => es[i]);
    assert a[..] == es;
    var err, done := CoerceAll(a, floatText);
    if err.Some? {
      return Failure(err.value);
    }
    assert es[..done] == es;
    ghost var out := CoerceEntries(es, floatText).value;
    CoerceEntriesAt(es, floatText);
    r := Success(seq(a.Length, i requires 0 <= i < a.Length reads a => (a[i].0, if a[i].1.PyStr? then a[i].1.s else "")));
    assert r.value == out by {
      forall i | 0 <= i < a.Length ensures r.value[i] == out[i] {
        assert a[i] == AsPyStr(out)[i];
      }
    }
  }

  // ---------------------------------------------------------------- the header create_header returns

  /** The returned header entry by entry: the i-th key, and the i-th value coerced. */
  lemma {:induction false} CreatedFrom(st: FileState, nbeam: int, pagesize: int, floatText: FloatText)
    requires TextsDecode(st.header) && CreatedHeader(st, nbeam, pagesize, floatText).Success?
    ensures FloatLinesError(st).None?
    ensures var n := IntAttr(st.header[NCHANS]).value;
      var d := CreatedHeader(st, nbeam, pagesize, floatText).value;
      forall i :: 0 <= i < 24 ==>
        d[i].0 == Key(i) && Coerced(DictValue(st.header, n, nbeam, pagesize, floatText, i), floatText) == Success(d[i].1)
  {
    var es := DictEntries(st.header, IntAttr(st.header[NCHANS]).value, nbeam, pagesize, floatText);
    CoerceEntriesAt(es, floatText);
  }

  /** SCIENCE_MODE is "0" for more than one beam and "2" for one. */
  lemma {:induction false} CreatedScienceMode(st: FileState, nbeam: int, pagesize: int, floatText: FloatText)
    requires TextsDecode(st.header) && CreatedHeader(st, nbeam, pagesize, floatText).Success?
    ensures CreatedHeader(st, nbeam, pagesize, floatText).value[23] == ("SCIENCE_MODE", if nbeam > 1 then "0" else "2")
  {
    CreatedFrom(st, nbeam, pagesize, floatText);
    var d := CreatedHeader(st, nbeam, pagesize, floatText).value;
    assert d[23].0 == Key(23);
  }

  /**
   * The size fields: RESOLUTION and TRANSFER_SIZE are both the decimal
   * `pagesize * nchans * nbeam`, SAMPLES_PER_BATCH and PADDED_SIZE both the
   * decimal page size, NCHAN the decimal `nchans`; `int()` of each gives the
   * number back.
   */
  lemma {:induction false} CreatedSizes(st: FileState, nbeam: int, pagesize: int, floatText: FloatText)
    requires TextsDecode(st.header) && CreatedHeader(st, nbeam, pagesize, floatText).Success?
    ensures st.header[NCHANS].Some? && st.header[NCHANS].value.Int?
    ensures var d, n := CreatedHeader(st, nbeam, pagesize, floatText).value, st.header[NCHANS].value.n;
      d[10] == ("NCHAN", IntToString(n)) &&
      d[11] == ("SAMPLES_PER_BATCH", IntToString(pagesize)) && d[12] == ("PADDED_SIZE", IntToString(pagesize)) &&
      d[17] == ("RESOLUTION", IntToString(pagesize * n * nbeam)) &&
      d[18] == ("TRANSFER_SIZE", IntToString(pagesize * n * nbeam)) &&
      IsIntText(d[17].1) && ParseInt(d[17].1) == pagesize * n * nbeam &&
      IsIntText(d[11].1) && ParseInt(d[11].1) == pagesize
  {
    var n := IntAttr(st.header[NCHANS]).value;
    var size := pagesize * n * nbeam;
    CreatedIntAt(st, nbeam, pagesize, floatText, 10, n);
    CreatedIntAt(st, nbeam, pagesize, floatText, 11, pagesize);
    CreatedIntAt(st, nbeam, pagesize, floatText, 12, pagesize);
    CreatedIntAt(st, nbeam, pagesize, floatText, 17, size);
    CreatedIntAt(st, nbeam, pagesize, floatText, 18, size);
    IntRoundTrip(size);
    IntRoundTrip(pagesize);
  }

  /** An int entry of the dict comes out as its decimal digits. */
  lemma {:induction false} CreatedIntAt(st: FileState, nbeam: int, pagesize: int, floatText: FloatText, i: nat, v: int)
    requires TextsDecode(st.header) && CreatedHeader(st, nbeam, pagesize, floatText).Success? && i < 24
    requires FloatLinesError(st).None?
    requires DictValue(st.header, IntAttr(st.header[NCHANS]).value, nbeam, pagesize, floatText, i) == PyInt(v)
    ensures CreatedHeader(st, nbeam, pagesize, floatText).value[i] == (Key(i), IntToString(v))
  {
    CreatedFrom(st, nbeam, pagesize, floatText);
  }

  /** The fixed entries: LST_START, TELESCOPE, INSTRUMENT, NBIT, NDIM, NPOL, IN_USE, SCIENCE_CASE and PARSET. */
  lemma {:induction false} CreatedConstants(st: FileState, nbeam: int, pagesize: int, floatText: FloatText)
    requires TextsDecode(st.header) && CreatedHeader(st, nbeam, pagesize, floatText).Success?
    ensures var d := CreatedHeader(st, nbeam, pagesize, floatText).value;
      d[6] == ("LST_START", "0") && d[7] == ("TELESCOPE", "WSRT") && d[8] == ("INSTRUMENT", "ARTS") &&
      d[13] == ("NBIT", "8") && d[14] == ("NDIM", "2") && d[15] == ("NPOL", "2") && d[16] == ("IN_USE", "1") &&
      d[21] == ("SCIENCE_CASE", "4") && d[22] == ("PARSET", "noparset")
  {
    assert FloatLinesError(st).None? by { CreatedFrom(st, nbeam, pagesize, floatText); }
    CreatedFixedInts(st, nbeam, pagesize, floatText);
    CreatedStrAt(st, nbeam, pagesize, floatText, 7, "WSRT");
    CreatedStrAt(st, nbeam, pagesize, floatText, 8, "ARTS");
    CreatedStrAt(st, nbeam, pagesize, floatText, 22, "noparset");
  }

  lemma {:induction false} CreatedFixedInts(st: FileState, nbeam: int, pagesize: int, floatText: FloatText)
    requires TextsDecode(st.header) && CreatedHeader(st, nbeam, pagesize, floatText).Success?
    requires FloatLinesError(st).None?
    ensures var d := CreatedHeader(st, nbeam, pagesize, floatText).value;
      d[6] == ("LST_START", "0") && d[13] == ("NBIT", "8") && d[14] == ("NDIM", "2") && d[15] == ("NPOL", "2") &&
      d[16] == ("IN_USE", "1") && d[21] == ("SCIENCE_CASE", "4")
  {
    CreatedIntAt(st, nbeam, pagesize, floatText, 6, 0);
    CreatedIntAt(st, nbeam, pagesize, floatText, 13, 8);
    CreatedIntAt(st, nbeam, pagesize, floatText, 14, 2);
    CreatedIntAt(st, nbeam, pagesize, floatText, 15, 2);
    CreatedIntAt(st, nbeam, pagesize, floatText, 16, 1);
    CreatedIntAt(st, nbeam, pagesize, floatText, 21, 4);
    SmallInts();
  }

  lemma {:induction false} SmallInts()
    ensures IntToString(0) == "0" && IntToString(1) == "1" && IntToString(2) == "2"
    ensures IntToString(4) == "4" && IntToString(8) == "8"
  {
  }

  /** A str entry of the dict comes out as it is. */
  lemma {:induction false} CreatedStrAt(st: FileState, nbeam: int, pagesize: int, floatText: FloatText, i: nat, v: string)
    requires TextsDecode(st.header) && CreatedHeader(st, nbeam, pagesize, floatText).Success? && i < 24
    requires FloatLinesError(st).None?
    requires DictValue(st.header, IntAttr(st.header[NCHANS]).value, nbeam, pagesize, floatText, i) == PyStr(v)
    ensures CreatedHeader(st, nbeam, pagesize, floatText).value[i] == (Key(i), v)
  {
    CreatedFrom(st, nbeam, pagesize, floatText);
  }

  /**
   * RA_HMS and DEC_HMS are `str(src_raj)` and `str(src_dej)` sliced as
   * written (`s[:2]:s[3:5]:s[6:]`, see HmsAsWrittenOverwrites); unless the coordinate is a bytes object (whose `str` is its
   * repr, not its decoding), that is the colon form of the RA and DEC entries.
   */
  lemma {:induction false} CreatedCoordinates(st: FileState, nbeam: int, pagesize: int, floatText: FloatText)
    requires TextsDecode(st.header) && CreatedHeader(st, nbeam, pagesize, floatText).Success?
    ensures var d, h := CreatedHeader(st, nbeam, pagesize, floatText).value, st.header;
      d[2] == ("RA_HMS", HmsAsWritten(Str(Attr(h[SRC_RAJ]), floatText))) &&
      d[4] == ("DEC_HMS", HmsAsWritten(Str(Attr(h[SRC_DEJ]), floatText))) &&
      ((h[SRC_RAJ].None? || !h[SRC_RAJ].value.Raw?) ==> d[1] == ("RA", Str(Attr(h[SRC_RAJ]), floatText))) &&
      ((h[SRC_DEJ].None? || !h[SRC_DEJ].value.Raw?) ==> d[3] == ("DEC", Str(Attr(h[SRC_DEJ]), floatText)))
  {
    CreatedFrom(st, nbeam, pagesize, floatText);
    var d, h := CreatedHeader(st, nbeam, pagesize, floatText).value, st.header;
    assert d[1].0 == Key(1) && d[2].0 == Key(2) && d[3].0 == Key(3) && d[4].0 == Key(4);
    CoercedValue(Attr(h[SRC_RAJ]), floatText);
    CoercedValue(Attr(h[SRC_DEJ]), floatText);
  }

  /** SOURCE is source_name as text: for a str or bytes source_name, its UTF-8 encoding is the attribute's bytes. */
  lemma {:induction false} CreatedSource(st: FileState, nbeam: int, pagesize: int, floatText: FloatText)
    requires TextsDecode(st.header) && CreatedHeader(st, nbeam, pagesize, floatText).Success?
    ensures var d, v := CreatedHeader(st, nbeam, pagesize, floatText).value, st.header[SOURCE_NAME];
      d[0].0 == "SOURCE" &&
      (v.Some? && v.value.Raw? ==> Utf8Encode(d[0].1) == v.value.data) &&
      (v.Some? && v.value.Text? ==> Utf8Encode(d[0].1) == v.value.utf8) &&
      (v.None? ==> d[0].1 == "None")
  {
    CreatedFrom(st, nbeam, pagesize, floatText);
    var d := CreatedHeader(st, nbeam, pagesize, floatText).value;
    assert d[0].0 == Key(0);
    CoercedValue(Attr(st.header[SOURCE_NAME]), floatText);
  }

  /** An attribute that is a bytes object which does not decode. */
  predicate Undecodable(v: Option<Value>) {
    v.Some? && v.value.Raw? && Utf8Decode(v.value.data).None?
  }

  /** The attributes the dict stores as they are. */
  const AttrFields: set<Field> := {SOURCE_NAME, SRC_RAJ, SRC_DEJ, TSTART, TSAMP, AZ_START, ZA_START}

  /** Which dict values the final loop cannot coerce: exactly the stored bytes attributes that do not decode. */
  lemma {:induction false} DictValueFails(h: Header, nchans: int, nbeam: int, pagesize: int, floatText: FloatText, i: nat)
    requires TextsDecode(h) && i < 24
    ensures Coerced(DictValue(h, nchans, nbeam, pagesize, floatText, i), floatText).Failure? <==>
      (i == 0 && Undecodable(h[SOURCE_NAME])) || (i == 1 && Undecodable(h[SRC_RAJ])) ||
      (i == 3 && Undecodable(h[SRC_DEJ])) || (i == 5 && Undecodable(h[TSTART])) ||
      (i == 9 && Undecodable(h[TSAMP])) || (i == 19 && Undecodable(h[AZ_START])) ||
      (i == 20 && Undecodable(h[ZA_START]))
  {
    CoercedValue(DictValue(h, nchans, nbeam, pagesize, floatText, i), floatText);
  }

  /**
   * `create_header` raises the first exception of the float arithmetic, if
   * any; otherwise it fails exactly when one of the stored attributes is a
   * bytes object that does not decode, with a UnicodeDecodeError.
   */
  lemma {:induction false} CreatedErrors(st: FileState, nbeam: int, pagesize: int, floatText: FloatText)
    requires TextsDecode(st.header)
    ensures var r := CreatedHeader(st, nbeam, pagesize, floatText);
      (FloatLinesError(st).Some? ==> r == Failure(FloatLinesError(st).value)) &&
      (FloatLinesError(st).None? ==>
        (r.Failure? <==> exists f :: f in AttrFields && Undecodable(st.header[f])) &&
        (r.Failure? ==> r.error == UnicodeDecodeError))
  {
    if FloatLinesError(st).None? {
      var h, n := st.header, IntAttr(st.header[NCHANS]).value;
      var es := DictEntries(h, n, nbeam, pagesize, floatText);
      CoerceEntriesFails(es, floatText);
      if exists i :: 0 <= i < |es| && Coerced(es[i].1, floatText).Failure? {
        var i :| 0 <= i < |es| && Coerced(es[i].1, floatText).Failure?;
        FailingEntryField(h, n, nbeam, pagesize, floatText, i);
      }
      if exists f :: f in AttrFields && Undecodable(h[f]) {
        var f :| f in AttrFields && Undecodable(h[f]);
        var i := FieldEntry(h, n, nbeam, pagesize, floatText, f);
        assert es[i].1 == DictValue(h, n, nbeam, pagesize, floatText, i);
      }
    }
  }

  /** A dict value that cannot be coerced is a stored attribute that does not decode. */
  lemma {:induction false} FailingEntryField(h: Header, nchans: int, nbeam: int, pagesize: int, floatText: FloatText, i: nat)
    requires TextsDecode(h) && i < 24
    requires Coerced(DictValue(h, nchans, nbeam, pagesize, floatText, i), floatText).Failure?
    ensures exists f :: f in AttrFields && Undecodable(h[f])
  {
    DictValueFails(h, nchans, nbeam, pagesize, floatText, i);
    var f := if i == 0 then SOURCE_NAME else if i == 1 then SRC_RAJ else if i == 3 then SRC_DEJ
      else if i == 5 then TSTART else if i == 9 then TSAMP else if i == 19 then AZ_START else ZA_START;
    assert f in AttrFields && Undecodable(h[f]);
  }

  /** A stored attribute that does not decode makes its dict value fail the loop. */
  lemma {:induction false} FieldEntry(h: Header, nchans: int, nbeam: int, pagesize: int, floatText: FloatText, f: Field)
    returns (i: nat)
    requires TextsDecode(h) && f in AttrFields && Undecodable(h[f])
    ensures i < 24 && Coerced(DictValue(h, nchans, nbeam, pagesize, floatText, i), floatText).Failure?
  {
    i := if f == SOURCE_NAME then 0 else if f == SRC_RAJ then 1 else if f == SRC_DEJ then 3
      else if f == TSTART then 5 else if f == TSAMP then 9 else if f == AZ_START then 19 else 20;
    DictValueFails(h, nchans, nbeam, pagesize, floatText, i);
  }

  /** The two-beam, 384-channel, 1024-sample header of the repository's test, as read back from its file. */
  lemma {:induction false} TestHeader(st: FileState, floatText: FloatText)
    requires st.mapped && TextsDecode(st.header)
    requires st.header[SOURCE_NAME] == Some(Raw(Ascii("FAKE")))
    requires st.header[NCHANS] == Some(Int(384)) && st.header[NBITS] == Some(Int(8)) && st.header[NIFS] == Some(Int(1))
    requires forall f :: f in FloatFields ==> st.header[f].Some? && st.header[f].value.Double?
    ensures var r := CreatedHeader(st, 2, 1024, floatText);
      r.Success? && r.value[0] == ("SOURCE", "FAKE") && r.value[10] == ("NCHAN", "384") &&
      r.value[17] == ("RESOLUTION", "786432") && r.value[23] == ("SCIENCE_MODE", "0")
  {
    var h := st.header;
    assert FCH1 in FloatFields && FOFF in FloatFields && TSTART in FloatFields && TSAMP in FloatFields;
    assert FloatLinesError(st).None?;
    TestSourceDecodes();
    CreatedErrors(st, 2, 1024, floatText);
    forall f | f in AttrFields ensures !Undecodable(h[f]) {
      assert f in FloatFields || f == SOURCE_NAME;
    }
    CreatedSource(st, 2, 1024, floatText);
    CreatedSizes(st, 2, 1024, floatText);
    CreatedScienceMode(st, 2, 1024, floatText);
    TestDigits();
    assert Utf8Encode("FAKE") == Ascii("FAKE") by { TestSourceDecodes(); }
    assert CreatedHeader(st, 2, 1024, floatText).value[0].1 == "FAKE" by {
      DecodesTo(Ascii("FAKE"), CreatedHeader(st, 2, 1024, floatText).value[0].1);
      DecodesTo(Ascii("FAKE"), "FAKE");
    }
  }

  /** The float-valued attributes the test's file sets. */
  const FloatFields: set<Field> := {SRC_RAJ, SRC_DEJ, AZ_START, ZA_START, FCH1, FOFF, TSTART, TSAMP}

  lemma {:induction false} TestSourceDecodes()
    ensures Utf8Encode("FAKE") == Ascii("FAKE") && Utf8Decode(Ascii("FAKE")) == Some("FAKE")
  {
    assert IsAscii("FAKE");
    AsciiEncode("FAKE");
    DecodeEncode("FAKE");
  }

  lemma {:induction false} TestDigits()
    ensures IntToString(384) == "384" && IntToString(786432) == "786432"
  {
    assert NatToString(3) == "3";
    assert NatToString(38) == "38";
    assert NatToString(384) == "384";
    assert NatToString(7) == "7";
    assert NatToString(78) == "78";
    assert NatToString(786) == "786";
    assert NatToString(7864) == "7864";
    assert NatToString(78643) == "78643";
    assert NatToString(786432) == "786432";
  }
}
