/**
 * The `dumpSPKIs` command (crlset.go:275-309): read the header and print the
 * hash behind every entry of the three SPKI lists it holds, in the order the
 * header declares them: `BlockedSPKIs`, `KnownInterceptionSPKIs`,
 * `BlockedInterceptionSPKIs`.
 *
 * The source finds these lists by reflection, as the string-slice fields
 * whose name ends in "SPKIs"; here they are listed explicitly. Base64
 * decoding is a parameter: `None` stands for a decoding error. The body after
 * the header is never read.
 */
module SpkiList {
  import opened Wrappers
  import opened Bytes
  import opened Errors
  import opened Header

  /** One line of output. */
  datatype Report =
    | Hash(spki: seq<byte>)  // standard output: the decoded bytes in hex
    | NotValid(entry: string)  // standard error: "<entry> is not a valid SPKI"; the loop goes on

  /** What `dumpSPKIs` printed, and why it returned false, `None` when it returned true. */
  datatype Listed = Listed(out: seq<Report>, err: Option<Failure>)

  /** The header fields whose name ends in "SPKIs", in declaration order. */
  function SpkiLists(h: CrlSetHeader): (ls: seq<seq<string>>)
    ensures |ls| == 3
    ensures ls[0] == h.blockedSpkis && ls[1] == h.knownInterceptionSpkis && ls[2] == h.blockedInterceptionSpkis
  {
    [h.blockedSpkis, h.knownInterceptionSpkis, h.blockedInterceptionSpkis]
  }

  /** The line for one list entry. */
  function ReportOf(entry: string, decode: string -> Option<seq<byte>>): (r: Report)
    ensures r.Hash? <==> decode(entry).Some?
    ensures r.Hash? ==> r.spki == decode(entry).value
    ensures r.NotValid? ==> r.entry == entry
  {
    match decode(entry)
    case None => NotValid(entry)
    case Some(bytes) => Hash(bytes)
  }

  /** The lines for one list, entry by entry. */
  function Reports(entries: seq<string>, decode: string -> Option<seq<byte>>): (rs: seq<Report>)
    ensures |rs| == |entries|
  {
    if entries == [] then [] else [ReportOf(entries[0], decode)] + Reports(entries[1..], decode)
  }

  /** The number of entries in several lists together. */
  function TotalEntries(lists: seq<seq<string>>): nat
  {
    if lists == [] then 0 else |lists[0]| + TotalEntries(lists[1..])
  }

  /** The lines for several lists, one after the other. */
  function AllReports(lists: seq<seq<string>>, decode: string -> Option<seq<byte>>): (rs: seq<Report>)
    ensures |rs| == TotalEntries(lists)
  {
    if lists == [] then [] else Reports(lists[0], decode) + AllReports(lists[1..], decode)
  }

  /** `dumpSPKIs` as a value. */
  function ListSpkis(file: seq<byte>, parse: seq<byte> -> Option<CrlSetHeader>,
                     decode: string -> Option<seq<byte>>): (l: Listed)
    ensures l.err.None? <==> DecodeHeader(file, parse).Success?
    ensures l.err.Some? ==> l.out == [] && l.err == Some(DecodeHeader(file, parse).error)
    ensures l.err.None? ==> l.out == AllReports(SpkiLists(DecodeHeader(file, parse).value.header), decode)
  {
    match DecodeHeader(file, parse)
    case Failure(f) => Listed([], Some(f))
    case Success(decoded) => Listed(AllReports(SpkiLists(decoded.header), decode), None)
  }

  /** One line per entry: entry `i` is reported as the decoder's verdict on it. */
  lemma {:induction false} ReportsByIndex(entries: seq<string>, decode: string -> Option<seq<byte>>)
    ensures |Reports(entries, decode)| == |entries|
    ensures forall i :: 0 <= i < |entries| ==> Reports(entries, decode)[i] == ReportOf(entries[i], decode)
    decreases |entries|
  {
    if entries != [] {
      ReportsByIndex(entries[1..], decode);
    }
  }

  /** Each decodable entry prints its bytes, and each other entry prints a complaint. */
  lemma ReportMeaning(entries: seq<string>, decode: string -> Option<seq<byte>>, i: nat)
    requires i < |entries|
    ensures i < |Reports(entries, decode)|
    ensures decode(entries[i]).Some? ==> Reports(entries, decode)[i] == Hash(decode(entries[i]).value)
    ensures decode(entries[i]).None? ==> Reports(entries, decode)[i] == NotValid(entries[i])
  {
    ReportsByIndex(entries, decode);
  }

  /** The three lists are reported one after another, each in its own order. */
  lemma ListsInOrder(h: CrlSetHeader, decode: string -> Option<seq<byte>>)
    ensures AllReports(SpkiLists(h), decode)
            == Reports(h.blockedSpkis, decode) + Reports(h.knownInterceptionSpkis, decode)
               + Reports(h.blockedInterceptionSpkis, decode)
    ensures |AllReports(SpkiLists(h), decode)|
            == |h.blockedSpkis| + |h.knownInterceptionSpkis| + |h.blockedInterceptionSpkis|
  {
    var lists := SpkiLists(h);
    assert lists[1..][1..][1..] == [];
    assert AllReports(lists[1..][1..], decode) == Reports(h.blockedInterceptionSpkis, decode) + [];
    ReportsByIndex(h.blockedSpkis, decode);
    ReportsByIndex(h.knownInterceptionSpkis, decode);
    ReportsByIndex(h.blockedInterceptionSpkis, decode);
  }

  /** The number of entries the base64 decoder accepts. */
  function Decodable(entries: seq<string>, decode: string -> Option<seq<byte>>): nat
  {
    if entries == [] then 0 else (if decode(entries[0]).Some? then 1 else 0) + Decodable(entries[1..], decode)
  }

  /** The number of `Hash` lines among some reports. */
  function HashLines(rs: seq<Report>): nat
  {
    if rs == [] then 0 else (if rs[0].Hash? then 1 else 0) + HashLines(rs[1..])
  }

  /**
   * A list prints one `Hash` line per entry the decoder accepts and one
   * complaint per entry it rejects.
   */
  lemma {:induction false} HashLinesCount(entries: seq<string>, decode: string -> Option<seq<byte>>)
    ensures HashLines(Reports(entries, decode)) == Decodable(entries, decode)
    ensures |Reports(entries, decode)| - HashLines(Reports(entries, decode)) == |entries| - Decodable(entries, decode)
    decreases |entries|
  {
    if entries != [] {
      var rs := Reports(entries, decode);
      HashLinesCount(entries[1..], decode);
      assert rs[1..] == Reports(entries[1..], decode);
    }
  }

  /** Two files with the same header list the same SPKIs, whatever their bodies. */
  lemma BodyIgnored(h: seq<byte>, body: seq<byte>, other: seq<byte>, parse: seq<byte> -> Option<CrlSetHeader>,
                    decode: string -> Option<seq<byte>>)
    requires |h| < 0x1_0000
    ensures ListSpkis(LE16(|h|) + h + body, parse, decode) == ListSpkis(LE16(|h|) + h + other, parse, decode)
  {
    SplitHeaderRoundTrip(h, body);
    SplitHeaderRoundTrip(h, other);
  }

  /** One more entry reported: its line joins the output, and the rest of the list is still owed. */
  lemma ReportStep(spkis: seq<string>, j: nat, out: seq<Report>, decode: string -> Option<seq<byte>>)
    requires j < |spkis| && out + Reports(spkis[j..], decode) == Reports(spkis, decode)
    ensures (out + [ReportOf(spkis[j], decode)]) + Reports(spkis[j + 1..], decode) == Reports(spkis, decode)
  {
    assert spkis[j..][1..] == spkis[j + 1..];
    assert Reports(spkis[j..], decode) == [ReportOf(spkis[j], decode)] + Reports(spkis[j + 1..], decode);
  }

  /** The inner loop of `dumpSPKIs`: one line per entry of one list, in order. */
  method ReportList(spkis: seq<string>, decode: string -> Option<seq<byte>>) returns (out: seq<Report>)
    ensures out == Reports(spkis, decode)
  {
    out := [];
    var j := 0;
    while j < |spkis|
      invariant 0 <= j <= |spkis|
      invariant out + Reports(spkis[j..], decode) == Reports(spkis, decode)
    {
      var line;
      match decode(spkis[j]) {
        case None =>
          line := NotValid(spkis[j]);
        case Some(bytes) =>
          line := Hash(bytes);
      }
      assert line == ReportOf(spkis[j], decode);
      ReportStep(spkis, j, out, decode);
      out := out + [line];
      j := j + 1;
    }
    assert spkis[j..] == [];
  }

  /** The outer loop of `dumpSPKIs`: each list in turn. */
  method ReportLists(lists: seq<seq<string>>, decode: string -> Option<seq<byte>>) returns (out: seq<Report>)
    ensures out == AllReports(lists, decode)
  {
    out := [];
    var i := 0;
    while i < |lists|
      invariant 0 <= i <= |lists|
      invariant out + AllReports(lists[i..], decode) == AllReports(lists, decode)
    {
      var lines := ReportList(lists[i], decode);
      assert lists[i..][1..] == lists[i + 1..];
      out := out + lines;
      i := i + 1;
    }
    assert lists[i..] == [];
  }

  /**
   * `dumpSPKIs` itself: the header, then each of its SPKI lists, printing
   * the decoded hash of each entry or a complaint and carrying on.
   */
  method DumpSpkis(file: seq<byte>, parse: seq<byte> -> Option<CrlSetHeader>, decode: string -> Option<seq<byte>>)
    returns (out: seq<Report>, err: Option<Failure>)
    ensures Listed(out, err) == ListSpkis(file, parse, decode)
  {
    var r := GetHeader(file, parse);
    if r.Failure? {
      return [], Some(r.error);
    }
    out := ReportLists(SpkiLists(r.value.header), decode);
    err := None;
  }
}
