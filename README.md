# dada_fildb in Dafny

dada_fildb copies SIGPROC filterbank files, one per beam, into a PSRDADA
ring buffer. It reads each file's SIGPROC header.

- **What it sends.** It builds a PSRDADA header dict from the first file. Then it writes pages of shape (nbeam, nchans, pagesize), one per ring-buffer slot. After the last page it marks the end of data.
- **What the model covers.** Its `SigprocFile` class reads, writes and appends to filterbank files, and the model covers that class as well.

The project has nine modules:

- **Wrappers**: `Option` and `Result`.
- **ByteCodec**:
  - bytes;
  - little-endian integers;
  - `struct.pack("i")` and its inverse, with explicit 32-bit two's complement;
  - ASCII.
- **PackedSamples** covers the `d & mask` / `2 ** (i * nbits)` arithmetic of sub-byte samples. `&` is defined bit by bit, and the lemmas show that it extracts the bit field and that the fields rebuild the byte.
- **SigprocHeader** covers:
  - the `_type` table of 20 typed fields;
  - the encoder (`send_string`, `send_num`, `send`, `filterbank_header`);
  - the decoder (`get_string`, `read_header`).

  A header is one optional Python value per field. A `str` is held as its UTF-8 bytes, a `bytes` object as its bytes, an `int` as an integer and a `float` as its eight packed bytes. The main theorem is the encode/decode round trip:
  - the decoder returns every field that was set, strings coming back as `bytes` and empty strings as None;
  - it counts `hdrbytes` as the header length minus 4 bytes per empty string.

  The encoder writes through a `Sink` class whose methods are tied to the functions above.
- **SigprocReader** covers:
  - the `SigprocFile` class: the constructor runs `read_header` as a loop over the file's bytes;
  - `dtype`, `bytes_per_spectrum` and `nspectra` (a float, modelled as a `real`);
  - `get_data`, with Python's slice clipping and `int()` truncation;
  - `unpack`.

  For 8-bit files, the lemmas state which byte each sample of `get_data` is.
- **SigprocFiles** covers `new_file`, `write_header` and `append_spectra` on a file object whose contents a method changes. It also covers the repository test's three appends and the `nspectra` they lead to.
- **PageAssembly** covers:
  - `get_data` of dada_fildb.py: a page array filled beam by beam, with transposition when `order.upper()` is `FT`, and reversal of the leading axis when `order` contains an uppercase `F` (the channel axis after transposition, the time axis otherwise);
  - numpy broadcasting, and the short last page;
  - the loop `for buffer in writer` with `npage = ceil(nspectra / pagesize)`, against a `RingWriter` class that records pages and end-of-data marks.
- **PyText** covers:
  - UTF-8 encoding and strict decoding, proved inverse in both directions;
  - `str()` of ints, with a parser that reads it back;
  - `str()` of bytes (its repr), with an unescaper that reads it back.
- **DadaHeader** covers `create_header`:
  - the 24 non-float entries of the dict, in insertion order;
  - the exceptions the float lines can raise first, for a finite `pagesize * tsamp`;
  - the final loop that turns every value into a `str`, imperative over an array.

Files are byte sequences. A missing file is an empty one, which `SigprocFile`
leaves unopened, as the source does. Exceptions are error values in `Result`s.

## Model

| member | source | states |
|---|---|---|
| SigprocHeader.TypeEntry | dada_fildb/sigproc.py:41-61 | every `_type` entry's name has 1 to 80 characters, so `get_string` can read it back |
| SigprocHeader.TypesDistinct | dada_fildb/sigproc.py:41-61 | the 20 field names are pairwise distinct |
| SigprocHeader.TypesUniqueNames | dada_fildb/sigproc.py:41-61 | the table has unique names, the condition the decoder's lookup needs |
| SigprocHeader.TypesAscii | dada_fildb/sigproc.py:41-61 | every field name is ASCII, so `.encode()` writes its characters one byte each |
| SigprocHeader.TypesNotEnd | dada_fildb/sigproc.py:41-61 | no field is named HEADER_END |
| SigprocHeader.ThenAssoc | dada_fildb/sigproc.py:149-152 | successive writes that stop at the first exception compose associatively |
| SigprocHeader.SendString | dada_fildb/sigproc.py:103-113 | raises nothing iff the value is a str whose encoding has a 32-bit length; a non-str raises AttributeError; a raise writes nothing; otherwise the 4 bytes unpack to the length and the rest is the encoded string |
| SigprocHeader.PackNumber | dada_fildb/sigproc.py:124 | `struct.pack` succeeds iff the value has the field's type ('i' a 32-bit int, 'd' a float); its 4 or 8 bytes unpack to the value; otherwise a struct error and no bytes |
| SigprocHeader.SendNum | dada_fildb/sigproc.py:115-124 | raises nothing iff the value fits the field's type, and then writes the field's entry bytes; otherwise the name has been written and a struct error follows |
| SigprocHeader.Send | dada_fildb/sigproc.py:126-141 | an unset field writes nothing; a set field raises iff its value does not fit its declared type |
| SigprocHeader.SendFrom | dada_fildb/sigproc.py:150-151 | the field loop from position k on raises nothing iff every set field from k on holds a value of its declared type: a str of 32-bit length, a 32-bit int, or a float |
| SigprocHeader.FilterbankHeader | dada_fildb/sigproc.py:143-152 | raises nothing iff every set field has its declared type; the output always begins with the HEADER_START string and, when nothing raised, ends with the HEADER_END string |
| SigprocHeader.Present | dada_fildb/sigproc.py:133-136 | the fields that `send` writes from position k on are at or after k, and each is set |
| SigprocHeader.PresentSorted | dada_fildb/sigproc.py:150-151 | the written fields are in strictly increasing table order |
| SigprocHeader.PresentComplete | dada_fildb/sigproc.py:133-136 | a field from k on is written if and only if it is set (not None) |
| SigprocHeader.SendFromEntries | dada_fildb/sigproc.py:126-151 | when nothing raises, the loop writes the entries of the set fields, one after another, in table order |
| SigprocHeader.SendEntry | dada_fildb/sigproc.py:133-141 | `send` of a set field of the right type writes its name string, then its value as a string or a packed number |
| SigprocHeader.MarkersWritable | dada_fildb/sigproc.py:149-152 | HEADER_START and HEADER_END are written without error as a 4-byte length and their ASCII characters |
| SigprocHeader.FilterbankHeaderLayout | dada_fildb/sigproc.py:143-152 | when every set field has the right type, the bytes of `filterbank_header` are HEADER_START, the set fields' entries in table order, and HEADER_END |
| SigprocHeader.Sink.constructor | dada_fildb/sigproc.py:93-94 | a new output file holds no bytes |
| SigprocHeader.Sink.Write | dada_fildb/sigproc.py:112-113 | a write appends exactly the given bytes |
| SigprocHeader.WriteString | dada_fildb/sigproc.py:104-113 | appends the 4-byte length and the UTF-8 bytes of a str. A non-str writes nothing and raises AttributeError. |
| SigprocHeader.WriteNum | dada_fildb/sigproc.py:115-124 | appends the name string and then the number packed as 'i' or 'd'. It raises a struct error for a value of the wrong type, after the name has been written. |
| SigprocHeader.WriteField | dada_fildb/sigproc.py:126-141 | appends nothing for an unset field, the name and string value for a string field, and the name and packed number otherwise |
| SigprocHeader.WriteFields | dada_fildb/sigproc.py:150-151 | the field loop appends exactly the bytes of the field sequence from the first field and stops at the first exception, which it returns |
| SigprocHeader.WriteHeader | dada_fildb/sigproc.py:143-152 | appends exactly the bytes the `filterbank_header` function describes and returns its exception |
| SigprocHeader.HeaderPieces | dada_fildb/sigproc.py:143-152 | `filterbank_header` is the start marker followed by the field loop and, only when the loop raised nothing, the end marker; a raising loop ends the output with its exception |
| SigprocHeader.GetString | dada_fildb/sigproc.py:155-165 | a read that does not run out consumes at least the 4 length bytes and ends inside the file |
| SigprocHeader.GetStringOfSent | dada_fildb/sigproc.py:161-165 | reading a string written as length + bytes gives those bytes with count length + 4 for 1 to 80 bytes, and (None, 0) for an empty one, 4 bytes further on |
| SigprocHeader.FindField | dada_fildb/sigproc.py:183 | a name that is found is exactly the ASCII bytes of the field's name |
| SigprocHeader.LookupName | dada_fildb/sigproc.py:183 | with unique names, looking up a field's own name finds that field |
| SigprocHeader.NameIsNotEnd | dada_fildb/sigproc.py:181 | with unique names, no field name reads as HEADER_END |
| SigprocHeader.UniqueNamesReadable | dada_fildb/sigproc.py:178-183 | with unique names, every field name reads back to its own field and never ends the loop |
| SigprocHeader.ReadStep | dada_fildb/sigproc.py:177-192 | one pass of the loop either moves forward within the file without decreasing `hdrbytes`, or stops with the attributes read so far |
| SigprocHeader.ReadValue | dada_fildb/sigproc.py:183-192 | reading a value moves forward with `hdrbytes` not decreasing, or stops, truncated, at the end of the file |
| SigprocHeader.ReadFields | dada_fildb/sigproc.py:177-192 | the loop ends inside the file, never with a missing HEADER_START, and with `hdrbytes` at least its starting value |
| SigprocHeader.DecodeHeader | dada_fildb/sigproc.py:167-176 | the header is rejected as not starting iff the first string is read and is not HEADER_START; then `hdrbytes` is 0 and every attribute is None |
| SigprocHeader.ReadStringValue | dada_fildb/sigproc.py:184-186 | a string value of 1 to 80 bytes is stored as bytes and counted as length + 4; an empty one is stored as None and counted as 0 |
| SigprocHeader.ReadNumberValue | dada_fildb/sigproc.py:187-192 | a number field consumes and counts 4 ('i') or 8 ('d') bytes and stores their unpacked value |
| SigprocHeader.ReadEnd | dada_fildb/sigproc.py:178-182 | HEADER_END ends the loop, adding 14 to `hdrbytes` |
| SigprocHeader.NumberReadsBack | dada_fildb/sigproc.py:124 | unpacking the bytes a number field was packed to gives the same value, in its field's width |
| SigprocHeader.ReadStringEntry | dada_fildb/sigproc.py:178-186 | a written string field reads back in one pass, with the counts of its name and value |
| SigprocHeader.ReadNumberEntry | dada_fildb/sigproc.py:178-192 | a written number field reads back in one pass, with the counts of its name and value |
| SigprocHeader.RoundTrip | dada_fildb/sigproc.py:143-192 | see the RoundTrip note below the table |
| SigprocHeader.DecodeWritten | dada_fildb/sigproc.py:149-192 | the same round trip, stated for HEADER_START followed by the encoded fields and any trailing bytes |
| SigprocHeader.RoundTripLength | dada_fildb/sigproc.py:167-192 | without empty strings, `hdrbytes` is exactly the length of the written header, so the data starts right after it |
| SigprocHeader.EmptyStringUndercounts | dada_fildb/sigproc.py:161-163 | an empty `source_name` is written but reads back as None, and `hdrbytes` comes out shorter than the header |
| ByteCodec.PackInt32 | dada_fildb/sigproc.py:112 | `struct.pack("i", x)` of a 32-bit int is four bytes |
| ByteCodec.UnpackInt32 | dada_fildb/sigproc.py:161 | `struct.unpack("i", ...)` of four bytes is a 32-bit int |
| ByteCodec.Int32RoundTrip | dada_fildb/sigproc.py:112 | `struct.unpack("i", struct.pack("i", x))` gives x for every 32-bit x |
| ByteCodec.Int32BytesRoundTrip | dada_fildb/sigproc.py:161 | packing the int that 4 bytes unpack to gives the 4 bytes back |
| ByteCodec.LeRoundTrip | dada_fildb/sigproc.py:124 | the little-endian value of the n bytes of u is u modulo 256^n |
| ByteCodec.LeBytesOfValue | dada_fildb/sigproc.py:190 | the n bytes of a sequence's little-endian value are the sequence |
| ByteCodec.AsciiInjective | dada_fildb/sigproc.py:181-183 | two ASCII strings with the same bytes are the same string |
| SigprocReader.ReadHeader | dada_fildb/sigproc.py:167-192 | the `while True` loop computes the result of the `read_header` function DecodeHeader |
| SigprocReader.ReadPass | dada_fildb/sigproc.py:178-192 | one pass of the loop body computes one ReadStep |
| SigprocReader.ReadFieldsStop | dada_fildb/sigproc.py:177-182 | a pass that stops ends the loop with that pass's result |
| SigprocReader.ReadFieldValue | dada_fildb/sigproc.py:183-192 | reading a value in the loop body computes ReadValue |
| SigprocReader.SigprocFile.constructor | dada_fildb/sigproc.py:63-73 | a non-empty file has its header read and is mapped; an empty or missing file keeps every attribute None and is not mapped; a `read_header` that raises leaves status ReadFailed (see Left out) |
| SigprocReader.Open | dada_fildb/sigproc.py:63-73 | `SigprocFile(fname)` with its exception: a non-empty file on which `read_header` raises gives that error and no object; otherwise a fresh file object with the constructor's state, whose status is not ReadFailed |
| SigprocReader.SpectraCount | dada_fildb/sigproc.py:215-219 | `nspectra` times `bytes_per_spectrum` is the byte count after the header. An unmapped file raises AttributeError, and zero bytes per spectrum raises ZeroDivisionError. |
| SigprocReader.SigprocFile.NSpectra | dada_fildb/sigproc.py:215-219 | on the file object: an unmapped file raises AttributeError; a result times `bytes_per_spectrum` is the byte count after the header |
| SigprocReader.BytesPerSpectrum | dada_fildb/sigproc.py:208-213 | defined iff nbits, nchans and nifs are ints, and then eight times it is their product |
| SigprocReader.DType | dada_fildb/sigproc.py:194-206 | succeeds iff nbits is 8, 16 or 32, with an item size of nbits/8 bytes; any other int raises the unsupported-nbits error |
| SigprocReader.ReadData | dada_fildb/sigproc.py:229-246 | `get_data` raises what `bytes_per_spectrum` raises, then AttributeError for an unmapped file, then the `dtype` error; a result implies a valid dtype and shape |
| SigprocReader.SigprocFile.GetData | dada_fildb/sigproc.py:229-246 | on the file object: an unmapped file with valid sizes raises AttributeError; a result implies valid sizes, a supported dtype and a shape |
| SigprocReader.TruncDiv8IsTrunc | dada_fildb/sigproc.py:238-244 | the integer form of `int(b0)` and `int(b1)` is `int()` of the exact quotient by 8, truncated toward zero |
| SigprocReader.OffsetInEighths | dada_fildb/sigproc.py:238-240 | `hdrbytes + k * bits / 8` is `(8 * hdrbytes + k * bits) / 8` exactly |
| SigprocReader.Clip | dada_fildb/sigproc.py:244 | a slice bound is clipped to [0, n], with negative bounds counting from the end |
| SigprocReader.ChunksLength | dada_fildb/sigproc.py:245 | a reshape into rows of w items gives `len // w` rows |
| SigprocReader.ChunksAt | dada_fildb/sigproc.py:245 | row j of the reshape is the slice of w items starting at j*w |
| SigprocReader.GetDataAt | dada_fildb/sigproc.py:243-246 | channel c of returned spectrum k is the item at (k * nifs * nchans + c) of the byte window, so IF 0 is the one kept |
| SigprocReader.WindowOfSpectra | dada_fildb/sigproc.py:238-244 | for spectra of n whole bytes the window is the byte slice from `hdrbytes + nstart*n` to `hdrbytes + (nstart+nsamp)*n` |
| SigprocReader.EightBitSpectra | dada_fildb/sigproc.py:208-213 | an 8-bit, one-IF file of n channels has n bytes per spectrum |
| SigprocReader.NSpectraEightBit | dada_fildb/sigproc.py:215-219 | an 8-bit file with m whole spectra after its header has `nspectra() == m` |
| SigprocReader.Available | dada_fildb/sigproc.py:244 | the number of spectra a clipped slice returns: nsamp when they all exist, none past the end, never more than remain |
| SigprocReader.GetDataSpectra | dada_fildb/sigproc.py:229-246 | on an 8-bit file `get_data` succeeds and returns as many spectra as exist from nstart, at most nsamp |
| SigprocReader.GetDataSample | dada_fildb/sigproc.py:229-246 | on an 8-bit file, channel c of returned spectrum k is the byte at `hdrbytes + (nstart + k) * nchans + c` |
| SigprocReader.SpectraSlice | dada_fildb/sigproc.py:244 | the clipped byte slice holds exactly the available spectra, byte for byte from the file |
| SigprocReader.SigprocFile.UnpackAsWritten | dada_fildb/sigproc.py:257-266 | as written: from 8 bits on, `unpack` is `get_data`; below that, it fails at the float slice bounds |
| SigprocReader.SubByteUnpackFails | dada_fildb/sigproc.py:259-266 | as written, `unpack` of 1-, 2- and 4-bit data raises TypeError |
| SigprocReader.SubBytePlan | dada_fildb/sigproc.py:259-267 | the packed bytes and shape of corrected sub-byte `unpack`: the slice of nsamp spectra from nstart, with its errors |
| SigprocReader.SigprocFile.Unpack | dada_fildb/sigproc.py:248-272 | corrected `unpack`: `get_data` from 8 bits on, otherwise a fresh (nsamp, nifs, nchans) array of the unpacked samples, and the errors of each path |
| SigprocReader.UnpackBytes | dada_fildb/sigproc.py:268-271 | the `for i in range(fac)` loop fills every cell `[s, f, k*fac + i]` with field i of packed byte k |
| SigprocReader.ColumnsFit | dada_fildb/sigproc.py:269-271 | the column slices `i::fac` cover the nchans channels, and no channel lies in two of them |
| SigprocReader.UnpackedCell | dada_fildb/sigproc.py:264-271 | channel c of the unpacked array is field `c % fac` of packed byte `c / fac`, and below 2^nbits |
| SigprocReader.FourBitSpectrum | dada_fildb/sigproc.py:264-271 | the 4-bit byte 0x21 of a 2-channel spectrum unpacks to channels 1 and 2 |
| PackedSamples.Pow2Add | dada_fildb/sigproc.py:270 | 2^(a+b) = 2^a * 2^b |
| PackedSamples.BitAndLowOnes | dada_fildb/sigproc.py:270-271 | `d & (2^n - 1)` is d modulo 2^n |
| PackedSamples.BitAndField | dada_fildb/sigproc.py:270-271 | `d & (2^s * (2^n - 1))` is the n-bit field of d at bit s, shifted to bit s |
| PackedSamples.ShrIsDiv | dada_fildb/sigproc.py:271 | shifting right by s is division by 2^s |
| PackedSamples.FacFillsByte | dada_fildb/sigproc.py:264 | for 1, 2 and 4 bits, `fac` samples fill exactly one byte |
| PackedSamples.ExtractField | dada_fildb/sigproc.py:270-271 | `(d & mask) / 2 ** (i * nbits)` is the bits `i*nbits .. (i+1)*nbits` of d |
| PackedSamples.ExtractBound | dada_fildb/sigproc.py:270-271 | every unpacked sample is below 2^nbits |
| PackedSamples.RebuildLow | dada_fildb/sigproc.py:269-271 | the first j samples of a byte, put back at their bit positions, are its low j*nbits bits |
| PackedSamples.RebuildByte | dada_fildb/sigproc.py:269-271 | all fac samples of a byte put back at their bit positions give the byte itself, so unpacking loses nothing |
| SigprocFiles.DiskFile.constructor | dada_fildb/sigproc.py:93 | a file with the given contents |
| SigprocFiles.Flatten | dada_fildb/sigproc.py:318 | the flattened spectra are empty iff every spectrum is empty |
| SigprocFiles.FlattenLength | dada_fildb/sigproc.py:318 | flattening k spectra of n samples gives k*n bytes |
| SigprocFiles.FlattenAt | dada_fildb/sigproc.py:318 | byte k*n + c of the flattened array is sample c of spectrum k (row-major order) |
| SigprocFiles.AppendSpectra | dada_fildb/sigproc.py:308-318 | the file becomes its old contents followed by the flattened spectra |
| SigprocFiles.AppendKeepsHeader | dada_fildb/sigproc.py:308-318 | appending bytes after a written header and data leaves what `read_header` reads unchanged |
| SigprocFiles.TypesReadable | dada_fildb/sigproc.py:41-61 | every name in the real table reads back to its own field |
| SigprocFiles.FindKey | dada_fildb/sigproc.py:88 | a key is found iff it is one of the `_type` names, and it is found at that name's field |
| SigprocFiles.SetFields | dada_fildb/sigproc.py:86-90 | the loop fails only at one of the given keys, and that key names no table entry |
| SigprocFiles.SetFieldsKnown | dada_fildb/sigproc.py:86-90 | setting the header dict succeeds iff every key is a known field; a failure names an unknown key |
| SigprocFiles.SetFieldsOthers | dada_fildb/sigproc.py:86-90 | a field whose name is not among the keys keeps its value |
| SigprocFiles.SetFieldsLast | dada_fildb/sigproc.py:86-90 | a field takes the value of the last item with its name |
| SigprocFiles.Opened | dada_fildb/sigproc.py:63-73 | an empty file leaves every attribute None; any other file has its header read |
| SigprocFiles.NewFile | dada_fildb/sigproc.py:76-101 | see the NewFile note below the table |
| SigprocFiles.SetAttrs | dada_fildb/sigproc.py:86-90 | the `setattr` loop fails at an unknown key; otherwise it sets the header to the dict's values and changes nothing else |
| SigprocFiles.FieldItems | dada_fildb/sigproc.py:86-90 | a dict holding every field's name and value, in table order |
| SigprocFiles.SetAllFields | dada_fildb/sigproc.py:86-90 | a dict holding every field sets the header to exactly those values |
| SigprocFiles.CreateFile | dada_fildb/sigproc.py:76-101 | `new_file` on a missing file with every field of the header, as test/test_dada_fildb.py:58 calls it, leaves exactly the encoded header in the file |
| SigprocFiles.WriteHeaderFile | dada_fildb/sigproc.py:298-306 | `write_header` replaces the file's contents with exactly the bytes `filterbank_header` writes for the object's header, and returns its exception |
| SigprocFiles.NewFileOfHeader | dada_fildb/sigproc.py:76-101 | a dict of well-typed values is accepted, written without error and read back by the final open |
| SigprocFiles.AppendedFile | dada_fildb/sigproc.py:63-73 | a file opened on a written header plus data is mapped, with its attributes read from it |
| SigprocFiles.ThreePagesLength | test/test_dada_fildb.py:60-65 | three appends of 1024 spectra of 384 bytes add 3072 * 384 bytes |
| SigprocFiles.NSpectraOfSpectra | dada_fildb/sigproc.py:215-219 | an 8-bit file with m spectra appended after its written header has `nspectra() == m` |
| SigprocFiles.ThreeAppends | test/test_dada_fildb.py:58-65 | the test's file, a new header plus three appended pages of 1024 spectra, has 3072 spectra |
| PageAssembly.TransposesExactly | dada_fildb/dada_fildb.py:77 | `order.upper() == 'FT'` holds iff order is FT, Ft, fT or ft |
| PageAssembly.Transposes | dada_fildb/dada_fildb.py:77 | a transposing order has two characters, F or f then T or t |
| PageAssembly.Flips | dada_fildb/dada_fildb.py:80-82 | of the transposing spellings, exactly those with an uppercase first F reverse the channel axis |
| PageAssembly.OrderCases | dada_fildb/dada_fildb.py:77-82 | FT transposes and flips, fT only transposes, TF only flips |
| PageAssembly.Placement | dada_fildb/dada_fildb.py:83-88 | see the Placement note below the table |
| PageAssembly.RowsShaped | dada_fildb/sigproc.py:245-246 | every spectrum `get_data` returns has nchans samples |
| PageAssembly.BeamRead | dada_fildb/dada_fildb.py:76 | a beam's block is `f.get_data(page * pagesize, pagesize)`, its failure exactly that of `get_data` |
| PageAssembly.States | dada_fildb/dada_fildb.py:75 | the beams' file states in beam order |
| PageAssembly.BeamReads | dada_fildb/dada_fildb.py:75-76 | one `get_data` result per beam, in beam order |
| PageAssembly.Cell | dada_fildb/dada_fildb.py:74-88 | a non-zero cell comes from a block that was read and fits, in a column the assignment fills; every other cell keeps the zero of `np.zeros` |
| PageAssembly.FirstBadNone | dada_fildb/dada_fildb.py:75-88 | no beam raises iff every beam's block is read and fits its slot |
| PageAssembly.FirstBadStep | dada_fildb/dada_fildb.py:75-88 | the beams are tried in order, and the first that raises decides the exception |
| PageAssembly.PageShape | dada_fildb/dada_fildb.py:71-89 | the page is built iff there is a first beam with an int nchans, pagesize is not negative, and every beam's block fits |
| PageAssembly.Contents | dada_fildb/dada_fildb.py:74 | the page array as a value, cell for cell |
| PageAssembly.PageIs | dada_fildb/dada_fildb.py:71-89 | a page exists only when pagesize is not negative and there is a first beam; it has one slot per beam, the first file's int nchans channels, and every beam's block fits |
| PageAssembly.GetPage | dada_fildb/dada_fildb.py:71-89 | returns a fresh page whose cells are those of PageIs, or exactly the exception PageShape predicts |
| PageAssembly.FillBeams | dada_fildb/dada_fildb.py:75-88 | the beam loop stops at the first beam that raises, and otherwise leaves every cell as Cell describes |
| PageAssembly.PlaceBeam | dada_fildb/dada_fildb.py:76-88 | one beam's assignment: raises iff its block does not fit, writes only slot i, and puts Cell there |
| PageAssembly.TransposedFits | dada_fildb/dada_fildb.py:76-88 | a transposing order on an 8-bit file always fits, with (nchans, available spectra) dimensions |
| PageAssembly.TransposedCell | dada_fildb/dada_fildb.py:76-88 | with a transposing order, cell (c, t) is sample t of channel c, or of channel nchans-1-c when flipped |
| PageAssembly.BeamSample | dada_fildb/dada_fildb.py:76 | sample ch of spectrum s of a beam's block is the corresponding byte of its file |
| PageAssembly.TransposedBlockCell | dada_fildb/dada_fildb.py:77-88 | a transposed block is broadcast when it has one spectrum, and otherwise padded with zeros after its last spectrum |
| PageAssembly.SpectraSampleCases | dada_fildb/dada_fildb.py:83-88 | a page column beyond the file's end is 0, except that a single remaining spectrum is broadcast to every column |
| PageAssembly.SpectrumInFile | dada_fildb/sigproc.py:238-246 | channel ch of spectrum k is the byte at `hdrbytes + k * nchans + ch` |
| PageAssembly.TransposedPage | dada_fildb/dada_fildb.py:71-89 | with a transposing order, a page over 8-bit files of n channels always succeeds with n channels |
| PageAssembly.FTPageCell | dada_fildb/dada_fildb.py:71-89 | with order FT, page cell [i][c][t] is file i's channel n-1-c at time t of the page |
| PageAssembly.PageCell | dada_fildb/dada_fildb.py:71-89 | every cell of a built page is the Cell of its beam's block |
| PageAssembly.Ceil | dada_fildb/dada_fildb.py:115 | `np.ceil` gives the least integer k with x <= k |
| PageAssembly.NumPages | dada_fildb/dada_fildb.py:115 | npage is the ceiling of `nspectra / pagesize`; pagesize 0 raises ZeroDivisionError |
| PageAssembly.NumPagesWhole | dada_fildb/dada_fildb.py:115 | for m whole spectra, npage is `(m + pagesize - 1) / pagesize` |
| PageAssembly.CeilUnique | dada_fildb/dada_fildb.py:115 | the ceiling is the only integer k with k - 1 < x <= k |
| PageAssembly.OpenAll | dada_fildb/dada_fildb.py:98-101 | opening the files succeeds iff no file's `read_header` raises, then gives one opened file per input with its contents; a failure is the error of some file that raises |
| PageAssembly.PageCount | dada_fildb/dada_fildb.py:115 | no files raise NoFiles; a count needs a first file with a `nspectra()`, pagesize not 0, and is the ceiling of `nspectra / pagesize` |
| PageAssembly.RingWriter.constructor | dada_fildb/dada_fildb.py:107 | a writer with no pages, no end-of-data mark and the given number of buffers |
| PageAssembly.RingWriter.Fill | dada_fildb/dada_fildb.py:119 | the page is copied into the next buffer, using one up |
| PageAssembly.RingWriter.MarkEndOfData | dada_fildb/dada_fildb.py:123 | the end of data is marked after the pages written so far |
| PageAssembly.Run | dada_fildb/dada_fildb.py:115-123 | see the Run note below the table |
| PageAssembly.WritePages | dada_fildb/dada_fildb.py:116-123 | the page loop writes pages 0, 1, ... while buffers are free; it marks the end right after page npage; it stops at a page that raises |
| PageAssembly.PagesExtend | dada_fildb/dada_fildb.py:119-120 | appending the correct page `page` keeps every written page correct |
| PageAssembly.Step | dada_fildb/dada_fildb.py:117-123 | one iteration: a failing page changes nothing; otherwise the page goes into one buffer, and the end is marked iff it was page npage - 1 |
| PageAssembly.TestRun | test/test_dada_fildb.py:100-122 | the run loop on the test's files (with a delay supplied, see Left out): two beams of 3072 spectra of 384 channels, pages of 1024, order FT, at least 3 buffers: exactly 3 pages are written and the end is marked after page 3 |
| PageAssembly.TestPages | test/test_dada_fildb.py:100-122 | for the test's files, npage is 3 and every page in order FT has 384 channels |
| PyText.Utf8Char | dada_fildb/sigproc.py:111 | one character encodes to 1 to 4 bytes |
| PyText.Utf8Encode | dada_fildb/sigproc.py:111 | `s.encode()` takes 1 to 4 bytes per character |
| PyText.Utf8Decode | dada_fildb/dada_fildb.py:63 | bytes that decode hold 1 to 4 bytes per decoded character |
| PyText.LeadOfChar | dada_fildb/dada_fildb.py:63 | the decoder reads the encoding of a character back as that character and its length |
| PyText.CharOfLead | dada_fildb/dada_fildb.py:63 | a byte sequence the decoder accepts as one character is that character's encoding |
| PyText.DecodeEncode | dada_fildb/dada_fildb.py:62-63 | decoding the UTF-8 encoding of any string gives the string |
| PyText.EncodeDecode | dada_fildb/dada_fildb.py:62-63 | bytes that decode are the encoding of what they decode to |
| PyText.DecodesTo | dada_fildb/dada_fildb.py:62-63 | bytes decode to s iff they are the encoding of s |
| PyText.AsciiEncode | dada_fildb/sigproc.py:111 | an ASCII string's UTF-8 encoding is its ASCII bytes |
| PyText.NatToString | dada_fildb/dada_fildb.py:64-65 | `str()` of a non-negative int is a non-empty string of decimal digits |
| PyText.IntToString | dada_fildb/dada_fildb.py:64-65 | `str(i)` is a form `int()` accepts, with a leading minus exactly for negative i |
| PyText.NatDigits | dada_fildb/dada_fildb.py:64-65 | the digits of `str(n)` read back as n, and start with 0 only for 0 |
| PyText.IntRoundTrip | dada_fildb/dada_fildb.py:64-65 | `int(str(i)) == i` for every int, negative ones included |
| PyText.IntToStringInjective | dada_fildb/dada_fildb.py:64-65 | different ints give different strings |
| PyText.BytesRepr | dada_fildb/dada_fildb.py:64-65 | `str(b)` of bytes starts with `b` and a quote, ' or ", and ends with the same quote |
| PyText.UnescapeByte | dada_fildb/dada_fildb.py:64-65 | each byte's escape in a bytes repr reads back as that byte |
| PyText.UnescapeEscape | dada_fildb/dada_fildb.py:64-65 | the escaped body of a bytes repr reads back as the bytes |
| PyText.BytesReprRoundTrip | dada_fildb/dada_fildb.py:64-65 | `str(b)` of bytes is `b`, a quote, the escaped bytes, the same quote; the body reads back as b |
| PyText.PlainBytesRepr | dada_fildb/dada_fildb.py:64-65 | printable ASCII bytes without quotes or backslashes appear in `b'...'` unchanged |
| DadaHeader.Attr | dada_fildb/dada_fildb.py:25-52 | a str attribute is the string whose UTF-8 encoding is the stored bytes |
| DadaHeader.Str | dada_fildb/dada_fildb.py:19-21 | `str()` of an int reads back with `int()`; `str()` of bytes is the `b'...'` repr, not the decoded text |
| DadaHeader.Coerced | dada_fildb/dada_fildb.py:62-66 | one value of the final loop: only bytes can fail, with UnicodeDecodeError, and a str is kept as it is |
| DadaHeader.CoercedValue | dada_fildb/dada_fildb.py:61-66 | see the CoercedValue note below the table |
| DadaHeader.HmsAsWritten | dada_fildb/dada_fildb.py:19-22 | as written: from six characters on, the length stays and colons sit at positions 2 and 5; up to two characters, the string just gains two colons |
| DadaHeader.Hms | dada_fildb/dada_fildb.py:19-22 | the corrected form: from four characters on, the string grows by two colons at positions 2 and 5; up to two characters, it just gains two colons |
| DadaHeader.HmsAsWrittenOverwrites | dada_fildb/dada_fildb.py:19-22 | as written, the slices replace the characters at positions 2 and 5 with colons and keep the length |
| DadaHeader.HmsAsWrittenDropsDigits | dada_fildb/dada_fildb.py:19-22 | as written, `123456.7` becomes `12:45:.7`; the corrected form gives `12:34:56.7` |
| DadaHeader.HmsRoundTrip | dada_fildb/dada_fildb.py:19-22 | the corrected form only inserts two colons: removing them gives the string back |
| DadaHeader.FloatLinesError | dada_fildb/dada_fildb.py:12-39 | the first exception of the dict's non-str lines: TypeError for a non-numeric nchans, foff or fch1, TimeRejected for a non-numeric `tstart` at `Time(...)`, then what `nspectra()` raises, then TypeError for a non-numeric tsamp; when none raises, nchans is a non-zero int, so `bw / float(nchans)` cannot divide by zero |
| DadaHeader.DictValue | dada_fildb/dada_fildb.py:19-59 | entry i of the dict: RA_HMS and DEC_HMS are always str (sliced as written), and only the seven entries copied from attributes can be anything but a str or an int |
| DadaHeader.DictEntries | dada_fildb/dada_fildb.py:24-59 | the dict holds 24 entries, key i with DictValue i; RA_HMS and DEC_HMS use the as-written slicing |
| DadaHeader.CoerceEntries | dada_fildb/dada_fildb.py:61-66 | a completed loop keeps the number of entries |
| DadaHeader.CreatedHeader | dada_fildb/dada_fildb.py:10-68 | a returned header has 24 entries (RA_HMS and DEC_HMS as written; see CreatedCoordinates) |
| DadaHeader.CoerceEntriesAt | dada_fildb/dada_fildb.py:61-66 | the loop keeps every key and replaces every value by its own coerced str |
| DadaHeader.CoerceEntriesFails | dada_fildb/dada_fildb.py:61-66 | the loop raises iff some value cannot be coerced, and then a UnicodeDecodeError |
| DadaHeader.CoerceEntriesIdempotent | dada_fildb/dada_fildb.py:61-66 | running the loop on a dict of str values returns it unchanged |
| DadaHeader.CoerceAll | dada_fildb/dada_fildb.py:61-66 | see the CoerceAll note below the table |
| DadaHeader.CreateHeader | dada_fildb/dada_fildb.py:10-68 | `create_header` on an opened file returns exactly CreatedHeader of its state, with the as-written RA_HMS and DEC_HMS |
| DadaHeader.CreatedFrom | dada_fildb/dada_fildb.py:24-66 | entry i of a returned header is key i with value i of the dict, coerced |
| DadaHeader.CreatedScienceMode | dada_fildb/dada_fildb.py:56-59 | SCIENCE_MODE is "0" for more than one beam and "2" otherwise |
| DadaHeader.CreatedSizes | dada_fildb/dada_fildb.py:41-49 | see the CreatedSizes note below the table |
| DadaHeader.CreatedConstants | dada_fildb/dada_fildb.py:32-54 | LST_START "0", TELESCOPE "WSRT", INSTRUMENT "ARTS", NBIT "8", NDIM and NPOL "2", IN_USE "1", SCIENCE_CASE "4", PARSET "noparset" |
| DadaHeader.CreatedFixedInts | dada_fildb/dada_fildb.py:32-53 | the fixed int entries come out as LST_START "0", NBIT "8", NDIM and NPOL "2", IN_USE "1" and SCIENCE_CASE "4" |
| DadaHeader.CreatedCoordinates | dada_fildb/dada_fildb.py:19-28 | RA_HMS and DEC_HMS are `str()` of `src_raj` and `src_dej` sliced as written, `s[:2]:s[3:5]:s[6:]`; RA and DEC are their `str()` unless they are bytes |
| DadaHeader.CreatedSource | dada_fildb/dada_fildb.py:25 | SOURCE is `source_name` as text: its UTF-8 encoding is the attribute's bytes, or "None" when unset |
| DadaHeader.DictValueFails | dada_fildb/dada_fildb.py:24-66 | a dict value fails to coerce iff it is one of the seven stored attributes and is bytes that do not decode |
| DadaHeader.CreatedErrors | dada_fildb/dada_fildb.py:10-68 | see the CreatedErrors note below the table |
| DadaHeader.TestHeader | test/test_dada_fildb.py:38-56 | the test's file, 2 beams and pages of 1024: success, with SOURCE "FAKE", NCHAN "384", RESOLUTION "786432" and SCIENCE_MODE "0" |

Notes on the longer rows:

- **SigprocHeader.RoundTrip.** For any header whose set fields have their declared types and whose strings are 0 to 80 bytes:
  - writing never raises;
  - reading back the written header, followed by any bytes, gives every field, with strings as bytes and empty strings as None;
  - reading ends at `HeaderDone`, right after the header;
  - `hdrbytes` is the header length minus 4 per empty string.
- **SigprocFiles.NewFile.**
  - An unknown key raises and leaves the file untouched.
  - Otherwise the file is overwritten with the encoded header. The method then returns either the encoder's exception or a fresh file opened on what was written.
- **PageAssembly.Placement.** A block fills the whole slot when it broadcasts against (nchans, pagesize). Otherwise it fills only its first b columns, provided the channel axis fits and b < pagesize. Otherwise both assignments raise.
- **PageAssembly.Run.**
  - If `npage` cannot be computed, the error is returned and nothing is written.
  - Otherwise every written page is correct. The loop writes npage pages, or every buffer the ring has when it has fewer. The end of data is marked once, after page npage, and only if it is reached.
  - If a page raises, every page before it has been written.
- **DadaHeader.CoercedValue.** Coercing a value:
  - fails iff it is bytes that do not decode, and then with UnicodeDecodeError;
  - decoded bytes re-encode to themselves;
  - a str is kept;
  - an int becomes a decimal that `int()` reads back;
  - None becomes "None";
  - anything else becomes `str()`.
- **DadaHeader.CoerceAll.** The in-place loop rewrites entries in order and stops at the first failure. The rewritten prefix is the coerced prefix and the rest is untouched. The outcome equals that of CoerceEntries.
- **DadaHeader.CreatedSizes.**
  - NCHAN is str(nchans).
  - SAMPLES_PER_BATCH and PADDED_SIZE are str(pagesize).
  - RESOLUTION and TRANSFER_SIZE are str(pagesize * nchans * nbeam).
  - `int()` gives each number back.
- **DadaHeader.CreatedErrors.** The exception of the lines before the final loop comes first: the arithmetic on nchans, foff and fch1, then `Time(tstart, format='mjd')` refusing a non-numeric `tstart`, then `nspectra()` and tsamp. After that, and for a finite `pagesize * tsamp`, the header fails iff a stored attribute is bytes that do not decode, and then with UnicodeDecodeError.

## Left out

- **I/O and the operating system.**
  - Files are byte sequences. `os.path.isfile`, `os.stat`, `open`, `close`, `seek` and `mmap` are not modelled. A missing file is given as empty contents.
  - `new_file` closing a previously opened file, and its AttributeError, are left out because a byte sequence has nothing to close.
- **The `dada_fildb` driver and psrdada.**
  - These are left out: the command-line entry point, the file-existence check, `Writer(int(key, 16))`, `setHeader`, `sleep(delay)`, `disconnect` and the final `close` calls. They are I/O on the ring buffer or the clock.
  - `for buffer in writer` is modelled by a writer with a fixed number of free buffers and no reader.
  - When `npage` is 0 or less (an empty data file gives 0), `page == npage` never holds after the first increment, so `markEndOfData` is never called. The source then keeps writing pages for as long as a reader frees buffers. The model's writer has no reader, so Run writes one page per free buffer and returns with no end-of-data mark.
- **The page's element type.**
  - RingWriter.Fill stores the page as a value, not as the flattened and type-converted bytes of the buffer.
  - The `float64` of `np.zeros` and the cast to the buffer's type are not modelled.
- **Floating point.**
  - These header entries are computed in floating point and are not part of the modelled dict:
    - UTC_START (astropy `Time`; only its refusal of a `tstart` that is not a number is modelled, as TimeRejected);
    - SCANLEN;
    - FREQ, BW, CHANNEL_BANDWIDTH and MIN_FREQUENCY;
    - BYTES_PER_SECOND (`int()` of a float).
  - `str()` of a float is the parameter `floatText`.
  - `flip_band` only changes those float values, so it is left out. Its TypeErrors on non-numbers are modelled.
- DadaHeader.CreatedHeader, DadaHeader.CreateHeader and DadaHeader.CreatedErrors: the ValueError (NaN) or OverflowError (infinity) that `int(pagesize * tsamp)` at dada_fildb/dada_fildb.py:50 raises for a non-finite product is not modelled, because doubles are opaque 8-byte values without IEEE-754 arithmetic. On such a header the model succeeds where the source raises.
- **Typing shortcuts.**
  - DadaHeader.FloatLinesError: a float `nchans` is treated as a TypeError. In Python it flows through as a float.
  - A `str` or `bytes` `nchans`, `foff` or `fch1` is treated as a TypeError, although Python would also accept sequence repetition by an int.
- SigprocHeader.PackNumber: an int stored in a double field raises a struct error. Python would pack it as a float. There is no IEEE-754 conversion in the model.
- **Samples.**
  - SigprocReader.Item: float32 samples are kept as their 4 bytes, and the `astype(np.float32)` widening of `unpack` is not modelled.
  - 16-bit samples are little-endian; the machine's native byte order is fixed as little-endian throughout.
- **Sizes.** The byte-count properties cover 8-bit files of one IF. For other sizes, GetDataSpectra and GetDataSample state nothing, though ReadData and GetDataAt still describe the result.
- SigprocReader.SigprocFile.Unpack: the corrected sub-byte path is given for nbits 1, 2 and 4. For the other widths below 8 (3, 5, 6, 7 and negative ones), SubBytePlan returns the unsupported-nbits error `Unsupported(nbits)`, after its TypeError and AttributeError checks; nbits 0 gives ZeroDivisionError.
- SigprocReader.SigprocFile.constructor: a Dafny constructor cannot raise, so when `read_header` raises, the constructed object carries status ReadFailed instead of not existing. SigprocReader.Open turns that status into the exception, and PageAssembly.OpenAll opens the driver's files through it. PageAssembly.Run, PageAssembly.GetPage and DadaHeader.CreateHeader require files that opened (status not ReadFailed), the only ones the source can hand them.
- `native_nspectra`, `native_tsamp`, `native_foff` and `native_nchans` are not modelled. They repeat `nspectra` or return an attribute.
- `read_header` decodes a field name with `.decode()` before looking it up. A name that is not UTF-8 and a name missing from the table are both reported as an unknown name. The model does not separate Python's UnicodeDecodeError from its KeyError.
- **The repository test.**
  - The test's page sums and its multiprocessing ring buffer are not modelled.
  - TestRun states the number of pages and the end-of-data mark. FTPageCell states the content of each page cell.
  - The test calls `dada_fildb(..., order='FT', pagesize=self.pagesize)` at test/test_dada_fildb.py:107 without the `delay` argument that dada_fildb/dada_fildb.py:92 requires. As written, that call raises TypeError before any file is opened or any page written (not executed). TestRun models the run loop as it would go with a delay supplied.

## Findings

| source | as written | input that shows it | evidently intended | confidence | as-written member | corrected member |
|---|---|---|---|---|---|---|
| dada_fildb/sigproc.py:259-266 | `fac = 8 / self.nbits` and the slice bounds use true division, so `b0`, `b1` and `nchans / fac` are floats and slicing the map with them raises TypeError | any file with nbits 4 (e.g. a 2-channel spectrum `0x21`) | integer division: `fac = 8 // nbits`, byte bounds `hdrbytes + nstart * nchans * nifs * nbits // 8`, giving channels 1 and 2 for `0x21` | high, not executed | SigprocReader.SigprocFile.UnpackAsWritten, SigprocReader.SubByteUnpackFails | SigprocReader.SigprocFile.Unpack, SigprocReader.FourBitSpectrum |
| dada_fildb/dada_fildb.py:19-22 | `f'{s[:2]}:{s[3:5]}:{s[6:]}'` of `str(src_raj)` skips the characters at positions 2 and 5 | `src_raj = 123456.7` (12h34m56.7s in SIGPROC's HHMMSS.S form) gives `12:45:.7` | `s[:2]:s[2:4]:s[4:]`, giving `12:34:56.7` (neither form handles a sign or lost leading zeros) | medium, not executed | DadaHeader.HmsAsWritten, DadaHeader.HmsAsWrittenDropsDigits | DadaHeader.Hms, DadaHeader.HmsRoundTrip |

CreatedHeader, like the source, builds RA_HMS and DEC_HMS with the as-written HmsAsWritten (CreatedCoordinates). Hms and HmsRoundTrip are the corrected form and what it guarantees.
