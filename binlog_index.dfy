/**
 * `read_conf` turns the binlog index file into the list of binlog paths:
 * every line Python's file iteration yields, with its trailing newlines
 * stripped, prefixed by the configured binlog directory and a slash.
 */
module BinlogIndex {
  import opened Text

  /** The binlog paths for directory `location` and index-file text `indexText`. */
  function BinlogPaths(location: string, indexText: string): (paths: seq<string>)
    ensures |paths| == |Lines(indexText)|
  {
    ReadLinesCount(indexText);
    var ls := ReadLines(indexText);
    seq(|ls|, i requires 0 <= i < |ls| => location + "/" + RStripNewlines(ls[i]))
  }

  /**
   * One path per line of the index file, in file order, each the directory,
   * a slash and the line without its newline; blank lines are kept.
   */
  lemma BinlogPathsLineByLine(location: string, indexText: string)
    ensures |BinlogPaths(location, indexText)| == |Lines(indexText)|
    ensures forall i :: 0 <= i < |Lines(indexText)| ==>
      BinlogPaths(location, indexText)[i] == location + "/" + Lines(indexText)[i]
  {
    ReadLinesCount(indexText);
    forall i | 0 <= i < |Lines(indexText)|
      ensures BinlogPaths(location, indexText)[i] == location + "/" + Lines(indexText)[i]
    {
      ReadLinesStripped(indexText, i);
    }
  }
}
