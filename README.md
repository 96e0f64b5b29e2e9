# Octatrack editor core in Dafny

This project models two parts of a small Python tool that prepares audio
slices for the Elektron Octatrack sampler.

- **The `.ot` metadata writer** (`audio/ot_writer.py`, `write`). It builds the
  fixed 0x340-byte slice-metadata file that the sampler reads. The file has
  three ASCII tags, a big-endian tempo word (`bpm*24`), a 16-bit constant,
  a table of up to 64 twelve-byte slice records, a 32-bit slice count and a
  16-bit checksum in the last two bytes. The format is Elektron's own. It is
  not an IFF file: the `FORM` tag is followed by four zero bytes, not by a
  chunk size.
  - `OtLayout` defines the file byte by byte (`LayoutByte`, `Body`, `Image`).
    It also defines what `write` returns or raises (`Encode`) and a strict
    reader (`Decode`). Lemmas prove each field, the checksum, the zero bytes
    and the capacity limit. They also prove that `Decode` and `Image` are
    inverse to each other.
  - `OtWriter.Write` is the imperative writer. It fills a zeroed
    `array<byte>` in the order the source does: tags, tempo, constant,
    count, one record per loop iteration, then the checksum. It is proved to
    return exactly `Encode(bpm, slices)`.
- **The waveform view** (`ui/waveform.py`, class `WaveformView`).
  - `Waveform.WaveformView` holds the buffer, the sample rate, the samples per
    pixel, the offset and the marker ratio. Its methods are `__init__`,
    `set_data`, `paintEvent` and `mousePressEvent`.
  - `Valid()` states that the offset is always 0 and the samples per pixel
    are always 256. No code path in the source changes them.
  - `Paint` returns what would be drawn: the trace of (column, sample) points
    and the column of the marker line.
  - The choice of samples is the pure `numpy.arange` expression (`Arange`,
    `DrawIndices`, `Trace`). Lemmas prove its closed form, order, bounds and
    count.

Behaviour of the source worth knowing when reading the model:
- `ui/waveform.py` has no zoom, pan, scrollbar sync or envelope cache. The
  offset and the samples per pixel never change after `__init__`.
- `mousePressEvent` (ui/waveform.py:35) stores the marker as a fraction of the
  widget width. `ui/main_window.py:97` reads the same `marker_ratio` as a
  fraction of the buffer length to choose where playback starts.
- A 65th slice makes `struct.pack_into` raise `struct.error` at record 64,
  because the record would run past the 0x340 bytes (`RecordOutsideImage(64)`).

Files: `wrappers.dfy` (Option, Result), `ot_layout.dfy` (module `OtLayout`),
`ot_writer.dfy` (module `OtWriter`), `waveform.dfy` (module `Waveform`).

## Model

| member | source | states |
|---|---|---|
| `OtWriter.Write` | audio/ot_writer.py:6-16 | The result is exactly `Encode(bpm, slices)`: the 0x340-byte image, or the error that `struct.pack_into` raises first. |
| `OtWriter.Put` | audio/ot_writer.py:10 | Slice assignment into the memoryview overwrites exactly `len(bytes)` bytes at `off` and leaves every other byte unchanged. |
| `OtWriter.PutHeader` | audio/ot_writer.py:8-13 | After the tags, tempo, constant and count are written into a zeroed buffer, every byte below the checksum equals the layout byte for an empty table, and the checksum bytes are still 0. |
| `OtWriter.PutRecord` | audio/ot_writer.py:15 | `pack_into('>III', mv, 0x3A+i*12, ...)` writes the 12 record bytes of slice `i` and changes no other byte. |
| `OtWriter.StoredRecord` | audio/ot_writer.py:14-15 | Storing record `i` over a buffer laid out with records `t[..i]` gives the layout with records `t[..i+1]`. |
| `OtWriter.AppendRecord` | audio/ot_writer.py:14-15 | Adding one record changes the layout only in that record's 12 bytes. |
| `OtWriter.PutChecksum` | audio/ot_writer.py:16 | The buffer becomes its first 0x33E bytes followed by the big-endian `(0xFFFF - sum) & 0xFFFF` of those bytes. |
| `OtLayout.Encode` | audio/ot_writer.py:6-16 | What `write` stores or raises. On success the tempo word is a u32, the table is valid and the file is 0x340 bytes. An out-of-image record can only be record 64. A value error names a slice below 64 whose values do not all fit a u32. |
| `OtLayout.LayoutByte` | audio/ot_writer.py:8-15 | Byte `k` below the checksum of the buffer after lines 8-15. A position that no tag, word, constant, record or count covers is 0, as `bytearray(OT_SIZE)` left it. |
| `OtLayout.Body` | audio/ot_writer.py:8-15 | The 0x33E bytes that `sum(mv[:-2])` reads. Every position that no field covers is 0. |
| `OtLayout.BE16` | audio/ot_writer.py:12 | `struct.pack('>H', v)` is two bytes. `BE16RoundTrip` and `U16AtBytes` show it is the big-endian form of `v`. |
| `OtLayout.BE32` | audio/ot_writer.py:11 | `struct.pack('>I', v)` is four bytes. `BE32RoundTrip` and `U32AtBytes` show it is the big-endian form of `v`. |
| `OtLayout.Record` | audio/ot_writer.py:15 | `struct.pack('>III', st, en, lp)` is 12 bytes. `ImageSlice` reads the three words back from it. |
| `OtLayout.Image` | audio/ot_writer.py:7-8 | The image is 0x340 bytes long whatever the number of slices. |
| `OtLayout.Checksum` | audio/ot_writer.py:16 | `(0xFFFF - sum) & 0xFFFF` is an unsigned 16-bit value, including when the sum exceeds 0xFFFF. |
| `OtLayout.Sum` | audio/ot_writer.py:16 | The byte sum lies between 0 and 255 times the number of bytes. |
| `OtLayout.FirstBadSlice` | audio/ot_writer.py:14-15 | Gives the first slice at or after `from` whose record cannot be written, or the table length. Every slice before it can be written. |
| `OtLayout.RecordFitsBelowMax` | audio/ot_writer.py:14-15 | Record `i` lies inside the 0x340 bytes exactly when `i < 64`. A record that fits ends at or before the count field at 0x33A. |
| `OtLayout.BE16RoundTrip` | audio/ot_writer.py:12 | Unpacking a packed `>H` word gives the word back. |
| `OtLayout.BE32RoundTrip` | audio/ot_writer.py:11 | Unpacking a packed `>I` word gives the word back. |
| `OtLayout.U16AtBytes` | audio/ot_writer.py:16 | Packing the `>H` word unpacked from two bytes gives those bytes back. |
| `OtLayout.U32AtBytes` | audio/ot_writer.py:13 | Packing the `>I` word unpacked from four bytes gives those bytes back. |
| `OtLayout.U32AtPacked` | audio/ot_writer.py:15 | Where a `>I` word was packed, unpacking at that offset gives the word. |
| `OtLayout.ImageTags` | audio/ot_writer.py:10 | Bytes 0..3 are "FORM", bytes 4..7 are zero, bytes 8..11 are "DPS1" and bytes 12..15 are "SMPA". |
| `OtLayout.ImageTempo` | audio/ot_writer.py:11 | Bytes 0x17..0x1A hold the tempo word as a big-endian u32. |
| `OtLayout.ImageConstant` | audio/ot_writer.py:12 | Bytes 0x2B..0x2C are 0x00, 0x30. |
| `OtLayout.ImageCount` | audio/ot_writer.py:13 | Bytes 0x33A..0x33D hold the number of slices as a big-endian u32. |
| `OtLayout.ImageRecord` | audio/ot_writer.py:14-15 | The 12 bytes at 0x3A+12i are the record of slice `i`, and they end at or before 0x33A. |
| `OtLayout.ImageSlice` | audio/ot_writer.py:14-15 | Slice `i`'s start, end and loop point read back as big-endian u32s at 0x3A+12i, 0x3E+12i and 0x42+12i. |
| `OtLayout.ImageChecksum` | audio/ot_writer.py:16 | The last two bytes equal the checksum recomputed from all preceding bytes. The 16-bit sum of those bytes plus the checksum is 0xFFFF. |
| `OtLayout.ImageUnusedZero` | audio/ot_writer.py:8-16 | Every byte that the tags, tempo, constant, slice records, count and checksum do not cover stays zero. |
| `OtLayout.DecodeImage` | audio/ot_writer.py:10-16 | The strict reader accepts every image and returns its tempo word and its slice table. |
| `OtLayout.DecodedByte` | audio/ot_writer.py:10-15 | Each byte below the checksum of an accepted file is the layout byte of the fields read from that file. |
| `OtLayout.ImageOfDecoded` | audio/ot_writer.py:8-16 | A file that the reader accepts is exactly the image of the fields read from it, so images and accepted files correspond one to one. |
| `OtLayout.NoBadSlice` | audio/ot_writer.py:14-15 | In a table of at most 64 slices whose values all fit in a u32, every record can be written. |
| `OtLayout.FirstBadSliceAt` | audio/ot_writer.py:14-15 | The loop raises at the first record that does not fit or has a value outside u32. |
| `OtLayout.BadSliceAtMax` | audio/ot_writer.py:14-15 | If the first 64 slices are valid and there are more than 64, the first record that cannot be written is record 64. |
| `OtLayout.EncodeSucceeds` | audio/ot_writer.py:11-15 | `write` succeeds exactly when `0 <= bpm*24 < 2^32`, there are at most 64 slices and every slice value fits in a u32. |
| `OtLayout.EncodeTooManySlices` | audio/ot_writer.py:13-15 | With valid first records, a 65th slice makes `write` raise at record 64, before its values are looked at. |
| `OtLayout.EncodeDecodes` | audio/ot_writer.py:6-16 | A successful `write` produces 0x340 bytes. They decode to tempo word `bpm*24` and the slices given. |
| `OtLayout.EncodeNoSlices` | audio/ot_writer.py:13 | `slices=None` and `slices=[]` write the same file. That file has count 0 and an all-zero slice table. |
| `OtLayout.Encode120BpmNoSlices` | audio/ot_writer.py:11-13 | At 120 BPM with no slices the file is 0x340 bytes, its tempo word is 2880 and its count is 0. |
| `Waveform.Step` | ui/waveform.py:23 | The decimation step `max(1, int(samples_pp))` is at least 1. It equals `samples_pp` whenever `samples_pp` is positive. |
| `Wrappers.Option.GetOr` | audio/ot_writer.py:13 | `slices or []`: the slices given, or the empty table when there are none. `EncodeNoSlices` shows that `None` and `[]` write the same file. |
| `Waveform.Arange` | ui/waveform.py:24 | Every index `arange(start, stop, step)` yields lies in `[start, stop)`. |
| `Waveform.DrawIndices` | ui/waveform.py:24 | Every index drawn is at least the offset, inside the buffer and below `offset + w*step`. |
| `Waveform.Trace` | ui/waveform.py:24-27 | Point `k` of the path is at column `x = k` and shows a sample of the buffer. |
| `Waveform.MarkerColumn` | ui/waveform.py:30 | `int(marker_ratio*w)`: for a non-negative product, the whole part of `marker_ratio*w`. |
| `Waveform.ClickRatio` | ui/waveform.py:35 | `x / width()`: the ratio times the width is the click position `x`. |
| `Waveform.ArangeClosedForm` | ui/waveform.py:24 | Index `k` is `start + k*step`. The next index would reach `stop`, so no index below `stop` is skipped. |
| `Waveform.ArangeIncreasing` | ui/waveform.py:24 | The indices strictly increase. |
| `Waveform.ArangeLength` | ui/waveform.py:24 | If `start + w*step <= stop` there are at least `w` indices. If `stop <= start + w*step` there are at most `w`. |
| `Waveform.TraceColumns` | ui/waveform.py:24-27 | Point `k` is drawn at column `x = k` with sample `data[offset + k*step]`. That index is below `len(data)`, and `k < w`. Drawing stops only at column `w` or at the end of the buffer. |
| `Waveform.TraceLength` | ui/waveform.py:24 | At most `w` points are drawn. Exactly `w` are drawn when `offset + w*step <= len(data)`. None are drawn when `offset >= len(data)` or `w <= 0`. |
| `Waveform.DefaultTrace` | ui/waveform.py:11-27 | With offset 0 and 256 samples per pixel, as the view always has, column `k` shows sample `256*k`. Drawing stops at column `w` or at the end of the buffer. |
| `Waveform.Trunc` | ui/waveform.py:30 | Python's `int()` on a float truncates toward zero: the result is within 1 of `r`, on the side of zero. |
| `Waveform.ClickRatioInside` | ui/waveform.py:35 | A click at `0 <= x <= width` with `width > 0` gives a ratio in [0, 1]. |
| `Waveform.MarkerInside` | ui/waveform.py:30 | A ratio in [0, 1] puts the marker line in a column from 0 to `w`. |
| `Waveform.MarkerAtClick` | ui/waveform.py:30-35 | In exact arithmetic, a marker painted at the width it was clicked at is in column `int(x)` of the click. Offset and samples per pixel play no part. With IEEE doubles the column can be `int(x) - 1` (see "## Left out"). |
| `Waveform.WaveformView.constructor` | ui/waveform.py:8-12 | A new view has no buffer, rate 44100, 256 samples per pixel, offset 0 and marker ratio 0.0. |
| `Waveform.WaveformView.SetData` | ui/waveform.py:14-17 | Stores the buffer and the rate and resets the offset to 0 and the marker ratio to 0.0. Samples per pixel are unchanged and the view invariant is kept. |
| `Waveform.WaveformView.Paint` | ui/waveform.py:19-30 | Without a buffer nothing is drawn. Otherwise the method draws the decimated trace, point `k` at column `k`, and the marker at `int(marker_ratio*w)`. |
| `Waveform.WaveformView.MousePress` | ui/waveform.py:33-36 | Without a buffer nothing changes. Otherwise the marker ratio becomes `x / width`. A width of 0 raises `ZeroDivisionError` and changes nothing. No other field changes. |

## Left out

- The `.ot` path (`with_suffix('.ot')`) and the file write (audio/ot_writer.py:17-19) are I/O. `Write` returns the bytes that would be written. The `item` argument is used only for that path, so it is not a parameter.
- Arguments of the wrong Python type are not modelled. A non-integer `bpm` or slice value makes `struct.pack_into` raise `struct.error` (line 11 or 15). `bpm=None` raises `TypeError` at `bpm*24`. A slice that does not unpack into three values raises `TypeError` or `ValueError` (line 14). `bpm` and the slice values are unbounded integers, and `slices` is an optional sequence of triples.
- On error, the model reports the first failing `pack_into` call. It does not model the bytes already written to the local buffer, because the buffer is discarded.
- `OtWriter.Write`: the tempo and count range checks run before any byte is written, while the source writes the tags first. The result and the raised error are the same.
- `Waveform.ClickRatio` and `Waveform.MarkerColumn` use exact real arithmetic. IEEE double rounding of `x / width()` and `marker_ratio * w` is not modelled.
- `Waveform.MarkerAtClick`: holds in exact real arithmetic only. With IEEE doubles, `x / width()` and then `* w` can round just below `x`, so the marker can be drawn at `int(x) - 1`: for example `int((15.0 / 22) * 22)` is 14.
- `Waveform.WaveformView.Paint` requires the view invariant (offset 0). numpy's wrap-around for negative indices is not modelled, because the offset is never negative.
- The `float32` conversion in `set_data`, the vertical scaling `mid - s*scale`, the path's starting point `moveTo(0, mid)`, the pens and the vertical extent of the marker line are left out. Samples are opaque values. Only which sample lands in which column is modelled.
- `self.update()` (repaint scheduling) and the widget's `width()`/`height()` are Qt calls. The width is a parameter of `Paint` and `MousePress`.
- The sample rate `sr` is stored but not read by the view, so nothing is proved about it beyond `SetData` storing it.
- ui/main_window.py (window shell, file dialog, `soundfile` decode, stereo-to-mono `mean`, playback timer and wall-clock playhead) is not part of this model. It also calls `zoom_in`/`zoom_out`, which `WaveformView` does not define, and passes `start_sample=` to a player that does not accept it.
- audio/bpm.py (tempo estimation), audio/player.py (playback), main.py (bootstrap) and model/sample_item.py (a plain record) are not part of this model.
- Zoom, pan, scrollbar sync and the peak-envelope cache are not modelled, because no source implements them.
