# crlset-tools: the CRLSet and CRX byte formats, in Dafny

This project models the binary-format core of `crlset-tools`, a command-line tool
that fetches, dumps and inspects Chrome CRLSets. Everything modelled comes from
`crlset.go`:

- **CRLSet framing (`getHeader`).** A little-endian `uint16` header length,
  that many bytes of JSON header, then the body. There are separate errors for
  a missing length, a short header and a header that does not parse.
- **The body walk of `dump`.** The body is a run of blocks, each a 32-byte SPKI
  hash, a little-endian `uint32` serial count and that many
  `{len:u8, serial[len]}` entries.
  - Without a certificate every (hash, serial) pair is printed. With one, only
    the serials of blocks whose hash equals the SHA-256 of the certificate's
    SubjectPublicKeyInfo are printed.
  - Output is incremental: whatever was printed before a truncation stays
    printed.
  - There are four truncation stages: SPKI hash, serial count, serial length
    and serial.
- **`dumpSPKIs`.** Prints each entry of the header's three SPKI lists. An entry
  that is not valid base64 gets a complaint and the loop carries on.
- **The CRX container check of `fetch`.** Reads the 12-byte header (magic
  "Cr24", version, signed-header length), skips the signed header and keeps the
  zip payload. Also modelled: the search for the archive entry named `crl-set`.
- **`zipReader.ReadAt`.** Copies the payload into a caller's buffer.

The cursor code of `getHeader` and the loops of `dump` and `dumpSPKIs` are methods. Each is
proved equal to a pure specification function (`DecodeHeader`, `WalkBody`,
`ListSpkis`). The properties are lemmas about those functions:

- a block decoder and encoder that round-trip;
- byte accounting: a successful walk consumes exactly the encoded blocks;
- the two output modes;
- the stage reported for each kind of truncation, with earlier output kept.

The `bytes.Buffer` that `fetch` reads the CRX through is a class with a read
offset. `ReadAt` writes into an `array`.

The modules follow the structure of the source:

- `Bytes` and `Errors`: shared types;
- `Header`: `getHeader`;
- `Walk`: the loops of `dump`;
- `Blocks`: the block view of a body;
- `BodyProperties` and `OutputModes`: what the walk guarantees;
- `Dump`: the `dump` command;
- `SpkiList`: `dumpSPKIs`;
- `Crx`: `fetch`'s container handling.

## Model

| member | source | states |
|---|---|---|
| Bytes.U16LE | crlset.go:323 | The header length assembled from two bytes is below 2^16 (a `uint16`, not a `uint32`). |
| Bytes.U32LE | crlset.go:247 | The serial count assembled from four bytes is below 2^32. |
| Bytes.LE32RoundTrip | crlset.go:247 | Reading back the 4-byte little-endian encoding of any `uint32` gives the same number. |
| Bytes.LE32OfU32LE | crlset.go:247 | Any four bytes are the little-endian encoding of the count read from them, so the count field loses nothing. |
| Bytes.LE16RoundTrip | crlset.go:323 | Reading back the 2-byte encoding of any `uint16` gives the same number. |
| Header.SplitHeader | crlset.go:318-331 | Fewer than 2 bytes fail with "truncated at header length", and only those. Otherwise the length is `c[0] + 256*c[1]`. Fewer header bytes than that fail with "truncated at header", and only those. Otherwise the header is `c[2..2+n]` and the rest is exactly `c[2+n..]`. |
| Header.SplitHeaderRoundTrip | crlset.go:318-331 | Prefixing any header shorter than 2^16 bytes with its length and appending any body, then splitting, gives back both. |
| Header.DecodeHeader | crlset.go:311-339 | `getHeader` succeeds exactly when the framing succeeds and the JSON decoder accepts the header bytes. Framing failures keep their stage. A header the decoder rejects is the separate "Failed to parse header" error. On success the header is the decoder's result and the returned rest is the framing's rest. |
| Header.GetHeader | crlset.go:311-339 | The cursor-advancing `getHeader` returns exactly `DecodeHeader` of the file. |
| Walk.Emit | crlset.go:263-267 | One serial prints at most one line. It prints one exactly when there is no filter or the filter equals the block's hash. With no filter, the line is the (hash, serial) pair. With a filter equal to the hash, it is the serial alone. |
| Walk.WalkSerials | crlset.go:250-269 | The entry walk of one block prints at most one line per byte it consumes, stops within its input, and can fail only at "serial length" or "serial". |
| Walk.WalkBody | crlset.go:229-270 | The body walk prints at most one line per body byte and can fail only at one of the four truncation stages. An empty body succeeds silently. A non-empty body shorter than a hash fails at "SPKI hash" and never stops silently. |
| Walk.WalkSerialsNoLength | crlset.go:251-254 | An entry still owed with no byte left fails at "serial length" and prints nothing more. |
| Walk.WalkSerialsShort | crlset.go:255-261 | An entry whose length byte exceeds the bytes left fails at "serial". |
| Walk.WalkSerialsEntry | crlset.go:255-268 | A complete entry prints its line, then the loop continues after its `1 + len` bytes. |
| Walk.WalkBodyBlock | crlset.go:229-270 | One step of the outer loop: the block's entries are walked from after the 36 bytes of hash and count. A failure there ends the walk; otherwise the walk goes on with the rest. |
| Walk.DumpEntries | crlset.go:250-269 | The counted inner loop prints and consumes exactly what the entry walk `WalkSerials` specifies, including the stage it stops at. |
| Walk.DumpBody | crlset.go:229-272 | The cursor loop of `dump` prints exactly the lines of `WalkBody` and fails at exactly its stage. |
| Blocks.ParseSerials | crlset.go:250-269 | Decoding `n` entries yields exactly `n` serials, each shorter than 256 bytes, and can only fail at "serial length" or "serial". |
| Blocks.ParseBody | crlset.go:229-270 | A decoded body is a list of well-formed blocks. A failure names one of the four truncation stages. |
| Blocks.EncodeSerialsSize | crlset.go:250-268 | Encoded entries take exactly one length byte plus the serial, each. |
| Blocks.EncodeBodySize | crlset.go:229-270 | An encoded body takes exactly `32 + 4 + Σ(1 + len)` bytes per block. |
| Blocks.ParseSerialsEntry | crlset.go:255-268 | An entry made of a length byte and that many bytes decodes to those bytes, followed by whatever the rest decodes to. |
| Blocks.ParseEncodedSerials | crlset.go:250-268 | Encoded entries decode back to the same serials, leaving exactly the bytes that followed. |
| Blocks.ParseEncodedBody | crlset.go:229-270 | Every list of well-formed blocks decodes back from its encoding. |
| Blocks.ParseSerialsFirst | crlset.go:255-268 | A successful decode of `n > 0` entries begins with a whole entry, and the other `n - 1` decode from the bytes after it. |
| Blocks.ParsedSerialsEncode | crlset.go:250-268 | Decoded entries re-encode to exactly the bytes they came from. |
| Blocks.ParsedBlockEncode | crlset.go:233-268 | A decoded block is well formed and re-encodes to exactly the bytes it came from. |
| Blocks.ParsedBodyEncode | crlset.go:229-270 | A successful decode consumes every body byte exactly once. The blocks re-encode to the same bytes, and their size is the body's length. |
| BodyProperties.WalkSerialsAgree | crlset.go:250-269 | The inner loop fails exactly when the entry decoder does, at the same stage. On success it prints the decoded serials and stops where the decoder stops. |
| BodyProperties.WalkBodyAgree | crlset.go:229-270 | `dump`'s walk succeeds exactly when the body decodes into blocks, and otherwise fails at the same stage. On success it prints `Render` of those blocks. |
| BodyProperties.FilterKeepsOutcome | crlset.go:229-270 | Whether the walk succeeds, and at which stage it fails, does not depend on the certificate filter. |
| BodyProperties.WalkSerialsStep | crlset.go:255-268 | The first entry's line is printed in front of what the walk of the later entries prints. |
| BodyProperties.WalkEncodedSerials | crlset.go:250-268 | Walking encoded entries prints each of them in order, then continues on what follows with the entries still owed. |
| BodyProperties.WalkEncodedFirst | crlset.go:250-268 | Inductive step of the above: from the later entries to all of them. |
| BodyProperties.WalkPartialBlock | crlset.go:233-268 | For a block with its hash, its count and some complete entries, those entries are printed before anything that happens later in the block. |
| BodyProperties.WalkBlockAt | crlset.go:229-270 | A whole encoded block is printed, then the walk continues with what follows it. |
| BodyProperties.WalkAfterBlocks | crlset.go:229-270 | Whole blocks are printed as they are read. A walk over them followed by anything prints them, then whatever the rest prints, and ends as the rest ends. |
| BodyProperties.WalkEncodedBody | crlset.go:229-272 | A well-formed body is walked to its end without error, printing `Render` of its blocks. |
| BodyProperties.TruncatedBlockHeader | crlset.go:233-246 | At every cut point inside a block's first 36 bytes, the walk fails at "SPKI hash" (first 32) or "serial count" (next 4), after printing the earlier blocks. It never stops silently. |
| BodyProperties.TruncatedAtSerialLength | crlset.go:250-254 | A block with fewer entries than its count fails at "serial length", after printing its complete serials. |
| BodyProperties.TruncatedAtSerial | crlset.go:255-261 | An entry cut short fails at "serial", after printing the earlier blocks and the complete serials of its own block. |
| OutputModes.Matching | crlset.go:237 | The selected blocks are exactly the blocks of the body whose hash equals the filter. Every selected block has that hash, and every block with that hash is selected. |
| OutputModes.UnfilteredBlock | crlset.go:263-264 | Without a filter, each serial of a block is printed with the block's hash. |
| OutputModes.MatchingBlock | crlset.go:265-266 | With a filter equal to the block's hash, each serial is printed alone. |
| OutputModes.OtherBlock | crlset.go:237-267 | With a filter different from the block's hash, the block prints nothing. |
| OutputModes.UnfilteredRender | crlset.go:238-264 | Without a filter, every (hash, serial) pair of every block is printed, in file order. |
| OutputModes.FilteredRender | crlset.go:237-266 | With a filter, exactly the serials of the blocks whose hash equals the filter are printed, in file order, each without its hash. |
| OutputModes.NoMatchPrintsNothing | crlset.go:237-267 | A filter that no block's hash equals prints nothing. |
| OutputModes.WrongLengthFilter | crlset.go:230-237 | A non-empty filter that is not 32 bytes long can never match, so it prints nothing. |
| OutputModes.SingleMatch | crlset.go:237-266 | When exactly one block has the filter's hash, exactly its serials are printed. |
| OutputModes.MatchingAppend | crlset.go:229-270 | Selecting from two runs of blocks is selecting from each, in order. |
| Dump.FilterOf | crlset.go:203-227 | The certificate fails exactly when it is unreadable or unparsable, each with its own error. Otherwise it gives the filter: empty exactly when no certificate was named, else the 32-byte SPKI hash. |
| Dump.DumpFile | crlset.go:197-273 | A header failure is reported with `getHeader`'s own error (its truncation stage, or the separate JSON error) and nothing printed. A certificate failure is reported with its own error and nothing printed. Only body truncations can follow printed output. |
| Dump.Dump | crlset.go:197-273 | The `dump` command (header, certificate, then the body loop) prints and fails exactly as `DumpFile` says. |
| Dump.DumpSucceeds | crlset.go:197-273 | `dump` returns true exactly when the header decodes, the certificate (if any) is usable and the body decodes into whole blocks. |
| Dump.DecodeFramed | crlset.go:311-339 | A framed file decodes to the parsed header and exactly the encoded body. |
| Dump.DumpUnfiltered | crlset.go:197-273 | Without a certificate, a well-formed file succeeds and prints every (hash, serial) pair in order. |
| Dump.DumpFiltered | crlset.go:197-273 | With a certificate, a well-formed file succeeds and prints the serials of exactly the blocks whose hash is the certificate's SPKI hash, in order. |
| Dump.DumpOfWalk | crlset.go:198-229 | Once the header decodes and the filter is known, `dump` reports what the body walk gives. |
| Dump.DecodeExtended | crlset.go:318-338 | Bytes appended after a framed file become part of the body that `getHeader` returns. |
| Dump.WalkCutInSerial | crlset.go:229-261 | Without a filter, whole blocks followed by a block cut inside a serial print every earlier pair, then fail at "serial". |
| Dump.DumpCutInSerial | crlset.go:197-273 | A file cut inside a serial still prints every (hash, serial) pair before the cut, then reports "truncated at serial". |
| Dump.RevocationsThenBlock | crlset.go:263-264 | Without a filter, printing some blocks and then one more block's serials is printing the pairs of all of them. |
| Dump.RevocationsAppend | crlset.go:229-270 | The pairs of two runs of blocks are the pairs of each, in order. |
| Dump.EmptyHeaderRejected | crlset.go:318-336 | A header length of zero frames no JSON. When the decoder rejects empty input, as `json.Unmarshal` does, `dump` prints nothing and fails with "Failed to parse header", whatever the body and certificate. |
| Dump.ExampleFraming | crlset.go:318-331 | The worked file is the framing of the JSON header `{}` and one block with serials AB and 0102. |
| Dump.ExampleUnfiltered | crlset.go:197-273 | When the decoder accepts `{}`, the worked file, unfiltered, prints both (hash, serial) pairs and succeeds. |
| Dump.ExampleMatching | crlset.go:197-273 | Filtered by the block's own hash, it prints both serials alone. |
| Dump.ExampleOtherHash | crlset.go:197-273 | Filtered by any other hash, it prints nothing and succeeds. |
| Dump.RaisedHeader | crlset.go:318-331 | With the count raised to 3, the worked file's `{}` header still decodes and frames the same body bytes. |
| Dump.RaisedWalk | crlset.go:229-270 | With the count raised to 3, the walk prints both pairs, then fails at "serial length". |
| Dump.ExampleRaisedCount | crlset.go:197-273 | With the count raised to 3, `dump` prints both pairs, then reports "truncated at serial length". |
| SpkiList.SpkiLists | crlset.go:281-297 | The lists reported are exactly three, the header's `BlockedSPKIs`, `KnownInterceptionSPKIs` and `BlockedInterceptionSPKIs`, in declaration order. |
| SpkiList.ReportOf | crlset.go:299-304 | An entry gives a hex line exactly when base64 decoding succeeds, carrying the decoded bytes. Otherwise it gives the complaint naming the entry. |
| SpkiList.Reports | crlset.go:298-305 | One list gives exactly one line per entry; `ReportsByIndex` states that line `i` is `ReportOf` entry `i`. |
| SpkiList.AllReports | crlset.go:284-306 | Several lists give exactly as many lines as they have entries together; `ListsInOrder` states the lists come one after another in order. |
| SpkiList.ListSpkis | crlset.go:275-309 | `dumpSPKIs` fails exactly when `getHeader` fails, with the same error and no output. Otherwise it prints the reports of the header's three SPKI lists. |
| SpkiList.ReportsByIndex | crlset.go:298-305 | There is one line per list entry, and entry `i`'s line is the decoder's verdict on entry `i`. |
| SpkiList.ReportMeaning | crlset.go:299-304 | A decodable entry prints its decoded bytes; any other entry prints "is not a valid SPKI". |
| SpkiList.ListsInOrder | crlset.go:284-306 | The three SPKI lists are reported one after another, in declaration order, each in its own order, with one line per entry in total. |
| SpkiList.HashLinesCount | crlset.go:298-305 | A list prints one hex line per entry the base64 decoder accepts and one "is not a valid SPKI" line per entry it rejects. |
| SpkiList.BodyIgnored | crlset.go:275-309 | Two files with the same header list the same SPKIs, whatever their bodies. |
| SpkiList.ReportList | crlset.go:298-305 | The inner loop prints exactly `Reports` of the list. |
| SpkiList.ReportLists | crlset.go:284-306 | The outer loop prints exactly `AllReports` of the lists. |
| SpkiList.DumpSpkis | crlset.go:275-309 | The `dumpSPKIs` command prints and fails exactly as `ListSpkis` says. |
| Crx.ParseCrx | crlset.go:137-154 | Fewer than 12 bytes fail with "Failed to parse CRX header", and only those. A magic other than "Cr24" fails with "doesn't look like a CRX", and so does a signed header longer than what follows the 12-byte header. Otherwise the zip payload is exactly `x[12 + HeaderLen..]`. |
| Crx.CrxRoundTrip | crlset.go:137-154 | Any signed header and zip wrapped in a CRX header, with any version, give back the zip. |
| Crx.VersionIgnored | crlset.go:143 | Changing the version field never changes the verdict. |
| Crx.Buffer.constructor | crlset.go:135 | A new buffer has all the downloaded bytes unread. |
| Crx.Buffer.Unread | crlset.go:154-155 | `crx.Bytes()` is what follows the consumed bytes: the consumed prefix and the unread part together are the download. The `Buffer` methods state how each read moves the boundary. |
| Crx.Buffer.ReadFull | crlset.go:138 | `binary.Read` consumes up to `n` bytes, and succeeds only when all `n` were there. |
| Crx.Buffer.Next | crlset.go:148 | `Next` returns the next `n` bytes, or all that is left, and consumes them. |
| Crx.ExtractZip | crlset.go:135-154 | The buffer-based check in `fetch` returns exactly `ParseCrx` of the download. |
| Crx.FindCrlSet | crlset.go:163-169 | Finds nothing exactly when no entry is named "crl-set". Otherwise it finds one named "crl-set" with none before it. |
| Crx.ZipReader.ReadAt | crlset.go:81-86 | A negative offset reads 0 bytes and leaves `p` unchanged. Otherwise it reads `min(len(p), len(z) - pos)` bytes, which equal `z[pos..pos+n]`, and the rest of `p` is untouched. |

## Left out

- **HTTP and Omaha.** HTTP retrieval, the Omaha XML reply, its app-id loop (crlset.go:88-134) and `buildVersionRequestURL` (crlset.go:59-69) are network I/O and library formatting.
- **Zip parsing.** `zip.NewReader`, `Open` and `io.Copy` (crlset.go:157-183) belong to the zip library. The entry list reaches `Crx.FindCrlSet` as a list of names.
- **JSON.** `json.Unmarshal` is the `parse` parameter. It maps header bytes to a header, or `None` for an error.
- **Base64 and hex.** `base64.StdEncoding.DecodeString` is the `decode` parameter of `dumpSPKIs`. The hex rendering of its output is not modelled.
- **Certificates.** Reading the certificate file, PEM and DER decoding, X.509 parsing and SHA-256 (crlset.go:203-227) are all one `Dump.Certificate` value. It says whether the certificate was unreadable or unparsable, and otherwise gives the hash, typed as a 32-byte `Dump.Digest`.
- **Field reflection.** `dumpSPKIs` finds its lists by reflection over the header's field names (crlset.go:281-296). The model lists the three `*SPKIs` fields explicitly, in declaration order. The "not the expected []string" branch cannot happen for this header type and is left out.
- **File reading.** The CRLSet file arrives as bytes, so "Failed to read CRLSet" (crlset.go:312-316) is not modelled.
- **Output text.** Exact `Printf` text, hex escaping, `usage` and `main`'s argument dispatch (crlset.go:341-382) are presentation. Lines are values, and errors are named stages.
- **Buffer.ReadFull.** It models the 12-byte `binary.Read` of the CRX header by its byte count only, not by reflection into the struct.
- **Crx.ExtractZip.** The `int(header.HeaderLen) < 0` test assumes a 64-bit `int`, where it never holds, so it is not modelled. On a 32-bit platform, a length of 2^31 or more would be rejected there instead of at the short-read check, with the same message.
- **Crx.ZipReader.ReadAt.** Its error result is always nil, so only the count is returned. The model requires `pos <= len(z)`, because Go panics on a larger offset.
- **Integer widths.** `pos` and the counts are unbounded integers. The source's `uint32` count cannot overflow its loop counter, and the byte-assembly expressions cannot overflow, so nothing is lost.

Several blocks may carry the same hash. The filtered walk prints the serials
of all of them, in file order (`OutputModes.FilteredRender`).
