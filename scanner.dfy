/**
 * The GET handler of sacromonte: starting from the newest binlog of the index,
 * run the extractor on one file after another, moving one file older each
 * time the extractor prints nothing, and stop at the first file for which it
 * prints something or at the oldest file. The extractor is a parameter: a
 * function from a binlog path to what the extraction command prints for it.
 */
module Scanner {
  import opened Wrappers
  import opened Text
  import Pipeline
  import BinlogIndex

  const NotFound := "NOT_FOUND"

  /** Python's IndexError on `binlog_list[-1]` when the index file lists no binlog. */
  datatype ScanError = IndexOutOfRange

  /** Python's `s[i]` for a negative index `i`. */
  function PyAt(s: seq<string>, i: int): (r: string)
    requires -|s| <= i < 0
    ensures r in s
    ensures i == -1 ==> r == s[|s| - 1]
    ensures i == -|s| ==> r == s[0]
  {
    s[|s| + i]
  }

  /**
   * The position (counted from the oldest file) where a backward scan that
   * starts at position `i` stops.
   */
  function StopPosition(files: seq<string>, read: string -> string, i: nat): (k: nat)
    requires i < |files|
    ensures k <= i
    decreases i
  {
    if read(files[i]) != "" || i == 0 then i else StopPosition(files, read, i - 1)
  }

  /**
   * The scan stops at a file for which the extractor printed something, or at
   * the oldest file, and every file it passed on the way printed nothing.
   */
  lemma {:induction false} StopPositionIsNewestHit(files: seq<string>, read: string -> string, i: nat)
    requires i < |files|
    ensures var k := StopPosition(files, read, i);
      (read(files[k]) != "" || k == 0) &&
      forall j :: k < j <= i ==> read(files[j]) == ""
    decreases i
  {
    if read(files[i]) == "" && i > 0 {
      StopPositionIsNewestHit(files, read, i - 1);
    }
  }

  /** A scan from `i` stops at the newest file at or below `i` the extractor prints something for. */
  lemma {:induction false} StopAtNewestHit(files: seq<string>, read: string -> string, i: nat, k: nat)
    requires k <= i < |files| && read(files[k]) != ""
    requires forall j :: k < j <= i ==> read(files[j]) == ""
    ensures StopPosition(files, read, i) == k
    decreases i
  {
    if i > k {
      StopAtNewestHit(files, read, i - 1, k);
    }
  }

  /** When the extractor prints nothing for any file at or below `i`, the scan ends at the oldest file. */
  lemma {:induction false} StopAtOldestWhenNoHit(files: seq<string>, read: string -> string, i: nat)
    requires i < |files|
    requires forall j :: 0 <= j <= i ==> read(files[j]) == ""
    ensures StopPosition(files, read, i) == 0
    decreases i
  {
    if i > 0 {
      StopAtOldestWhenNoHit(files, read, i - 1);
    }
  }

  /** The page body the handler writes. */
  function Message(gtid: string, searched: string, latest: string): (page: string)
    ensures |gtid| <= |page| && page[..|gtid|] == gtid
    ensures var tail := "<br>Latest binlog: " + latest;
      |tail| <= |page| && page[|page| - |tail|..] == tail
  {
    var page := gtid + "<br>" + "Searched up to: " + searched + "<br>" + "Latest binlog: " + latest;
    assert page == gtid + ("<br>" + "Searched up to: " + searched) + ("<br>Latest binlog: " + latest);
    page
  }

  /** The page body for a non-empty binlog list. */
  function Report(files: seq<string>, read: string -> string): (page: string)
    requires |files| > 0
    ensures var gtid := read(files[StopPosition(files, read, |files| - 1)]);
      var first := if gtid == "" then NotFound else gtid;
      |first| <= |page| && page[..|first|] == first
    ensures var tail := "<br>Latest binlog: " + files[|files| - 1];
      |tail| <= |page| && page[|page| - |tail|..] == tail
  {
    var k := StopPosition(files, read, |files| - 1);
    var gtid := read(files[k]);
    Message(if gtid == "" then NotFound else gtid, files[k], files[|files| - 1])
  }

  /**
   * The handler's scan and page. The ghost `visited` lists, in call order, the
   * positions (counted from the oldest file) of the files the extractor was
   * run on.
   */
  method DoGet(binlogList: seq<string>, readBinlog: string -> string)
    returns (r: Result<string, ScanError>, ghost visited: seq<nat>)
    ensures |binlogList| == 0 ==> r == Failure(IndexOutOfRange) && visited == []
    ensures |binlogList| > 0 ==> r == Success(Report(binlogList, readBinlog))
    ensures |binlogList| > 0 ==>
      |visited| == |binlogList| - StopPosition(binlogList, readBinlog, |binlogList| - 1)
    ensures forall j :: 0 <= j < |visited| ==> visited[j] == |binlogList| - 1 - j
  {
    if |binlogList| == 0 {
      r, visited := Failure(IndexOutOfRange), [];
      return;
    }
    var n := |binlogList|;
    var binlogIndex := -1;
    var lastGtid := readBinlog(PyAt(binlogList, binlogIndex));
    visited := [n - 1];
    while lastGtid == "" && n + binlogIndex > 0
      invariant -n <= binlogIndex <= -1
      invariant lastGtid == readBinlog(binlogList[n + binlogIndex])
      invariant StopPosition(binlogList, readBinlog, n - 1) ==
        StopPosition(binlogList, readBinlog, n + binlogIndex)
      invariant |visited| == -binlogIndex
      invariant forall j :: 0 <= j < |visited| ==> visited[j] == n - 1 - j
      decreases n + binlogIndex
    {
      binlogIndex := binlogIndex - 1;
      lastGtid := readBinlog(PyAt(binlogList, binlogIndex));
      visited := visited + [n + binlogIndex];
    }
    if lastGtid == "" {
      lastGtid := NotFound;
    }
    var message := lastGtid + "<br>" + "Searched up to: " + PyAt(binlogList, binlogIndex) +
      "<br>" + "Latest binlog: " + PyAt(binlogList, -1);
    r := Success(message);
  }

  /** A page for a file that printed something reports that output and that file. */
  lemma ReportFound(files: seq<string>, read: string -> string, k: nat)
    requires k < |files| && read(files[k]) != ""
    requires forall j :: k < j < |files| ==> read(files[j]) == ""
    ensures Report(files, read) == Message(read(files[k]), files[k], files[|files| - 1])
  {
    StopAtNewestHit(files, read, |files| - 1, k);
  }

  /** When no file printed anything the page says NOT_FOUND, searched up to the oldest file. */
  lemma ReportNotFound(files: seq<string>, read: string -> string)
    requires |files| > 0
    requires forall j :: 0 <= j < |files| ==> read(files[j]) == ""
    ensures Report(files, read) == Message(NotFound, files[0], files[|files| - 1])
  {
    StopAtOldestWhenNoHit(files, read, |files| - 1);
  }

  /** The extractor `os_readbinlog` for a decoder, given as path to decoded text. */
  function Extractor(decode: string -> string): (e: string -> string)
    ensures forall f :: |e(f)| == 0 || e(f)[|e(f)| - 1] == '\n'
  {
    var e := f => Pipeline.Extract(decode(f));
    assert forall f :: e(f) == Pipeline.Extract(decode(f));
    e
  }

  /** The decoded text of `file` has a line with both "end_log_pos" and "GTID". */
  predicate HasGtidEvent(decode: string -> string, file: string)
  {
    exists j :: 0 <= j < |Lines(decode(file))| && Pipeline.IsGtidEvent(Lines(decode(file))[j])
  }

  /** The extractor prints something for a binlog exactly when its decoded text has a GTID event line. */
  lemma ExtractorHitIff(decode: string -> string, file: string)
    ensures Extractor(decode)(file) != "" <==> HasGtidEvent(decode, file)
  {
    Pipeline.ExtractEmptyIff(decode(file));
  }

  /**
   * With the real extractor, the scan stops at the newest binlog whose decoded
   * text has a GTID event line, or at the oldest binlog when none has one.
   */
  lemma ScanStopsAtNewestGtidEvent(files: seq<string>, decode: string -> string)
    requires |files| > 0
    ensures var k := StopPosition(files, Extractor(decode), |files| - 1);
      (k == 0 || HasGtidEvent(decode, files[k])) &&
      forall j :: k < j < |files| ==> !HasGtidEvent(decode, files[j])
  {
    var read := Extractor(decode);
    StopPositionIsNewestHit(files, read, |files| - 1);
    forall j | 0 <= j < |files|
      ensures HasGtidEvent(decode, files[j]) <==> read(files[j]) != ""
    {
      ExtractorHitIff(decode, files[j]);
    }
  }

  /**
   * End to end, for the index file text and a decoder: the scan over the paths
   * built from the index stops at the newest binlog whose decoded text has a
   * GTID event line (or at the oldest), and that binlog's path is the
   * directory, a slash and its index line.
   */
  lemma EndToEndScan(location: string, indexText: string, decode: string -> string)
    requires |Lines(indexText)| > 0
    ensures var files := BinlogIndex.BinlogPaths(location, indexText);
      var k := StopPosition(files, Extractor(decode), |files| - 1);
      k < |Lines(indexText)| &&
      files[k] == location + "/" + Lines(indexText)[k] &&
      (k == 0 || HasGtidEvent(decode, files[k])) &&
      forall j :: k < j < |files| ==> !HasGtidEvent(decode, files[j])
  {
    var files := BinlogIndex.BinlogPaths(location, indexText);
    BinlogIndex.BinlogPathsLineByLine(location, indexText);
    ScanStopsAtNewestGtidEvent(files, decode);
    var k := StopPosition(files, Extractor(decode), |files| - 1);
    assert k < |Lines(indexText)|;
    assert files[k] == location + "/" + Lines(indexText)[k];
  }
}
