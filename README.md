# sacromonte: backward GTID search, modelled in Dafny

sacromonte is a small HTTP service. It reports the last GTID (global transaction
identifier) written to the binary logs of a MariaDB/MySQL server, and it reads the
log files on disk, so it works even while the server is stopped. On every GET it:

1. reads the binlog index file and builds one path per line: the binlog directory, a
   slash, and the line without its newline (`read_conf`);
2. runs an extraction command on the newest binlog. The command is
   `<decoder> <file> | grep end_log_pos | egrep GTID | tail -1 | awk -F"GTID" '{print $2}' | awk '{print $1}'`
   (`os_readbinlog`);
3. moves one file older each time the command prints nothing, and stops at the
   oldest listed file;
4. writes `<gtid><br>Searched up to: <file><br>Latest binlog: <newest file>`. If
   nothing was found, `<gtid>` is `NOT_FOUND`.

The project has five modules:

- `Wrappers`: Option and Result.
- `Text`: the text primitives the shell tools and Python apply. These are
  substring search, splitting a stream into lines and printing lines back, awk's
  split on a literal field separator, awk's default blank-separated first field,
  Python's file-line iteration and `rstrip('\n')`.
- `Pipeline`: the extraction command, stage by stage. Each stage maps a text stream
  to a text stream. The command's output, trailing newline included, is described
  in terms of the decoder's output lines.
- `BinlogIndex`: the path list built from the index file text.
- `Scanner`: the GET handler's backward scan. It is an imperative method with
  Python's negative list index as the cursor and `len + index` as the termination
  measure. A ghost out-parameter records which files the extractor was run on, in
  order. The page text is stated through specification functions, and the whole
  chain is connected end to end.

The extractor is a parameter of the scan: a function from a binlog path to what the
command prints for it. The decoder (`mysqlbinlog`) is a parameter of the end-to-end
lemmas: a function from a binlog path to its decoded text.

Behaviour of `sacromonte.py` worth knowing:

- The result is the single token of the last GTID event line of one file.
- An empty index list raises `IndexError` at `binlog_list[-1]`.
- Blank index lines are not skipped. Each one becomes the path `<location>/`.
- An extraction with no token after `GTID` prints a bare newline. That output is
  non-empty, so it stops the scan.

## Model

| member | source | states |
|---|---|---|
| Text.Find | sacromonte.py:39 | the leftmost occurrence of a pattern: a found position is an occurrence with none before it, and nothing is found only when the pattern occurs nowhere (grep's substring test, awk's separator search) |
| Text.ContainsIffOccurs | sacromonte.py:39 | a line contains a pattern exactly when the pattern occurs at some position of it |
| Text.IndexOf | sacromonte.py:39 | the position of the first occurrence of a character (the newline, where lines are split), or the length when there is none |
| Text.Unlines | sacromonte.py:39 | printing lines gives empty text exactly when there are no lines |
| Text.Lines | sacromonte.py:39 | how grep, tail and awk split their input into lines; its meaning is given by LinesNewlineFree, UnterminatedLine, LinesUnlines and UnlinesLines |
| Text.UnlinesTerminated | sacromonte.py:39 | printed output, when non-empty, ends with a newline |
| Text.LinesNewlineFree | sacromonte.py:39 | the lines of a text stream contain no newline |
| Text.UnterminatedLine | sacromonte.py:39 | a final piece without a newline is a line: adding the missing newline leaves the lines unchanged |
| Text.LinesUnlines | sacromonte.py:39 | reading back lines printed by one pipe stage gives the same lines, so the stages compose line for line |
| Text.UnlinesLines | sacromonte.py:39 | a stream that is empty or ends in a newline is its lines printed back, so a trailing newline adds no empty line |
| Text.Fields | sacromonte.py:39 | awk -F"GTID" fields: at least one, and none contains the separator |
| Text.Field | sacromonte.py:39 | awk's `$n`, the empty string past the last field; its meaning is given by SecondField, Fields and JoinFields |
| Text.JoinFields | sacromonte.py:39 | joining awk's fields with the separator gives the record back |
| Text.SecondField | sacromonte.py:39 | awk's `$2` is the text after the first "GTID", up to the second "GTID" or the end of the line |
| Text.FieldsNewlineFree | sacromonte.py:39 | fields of a newline-free line are newline-free |
| Text.TrimLeft | sacromonte.py:39 | removes exactly the leading blanks |
| Text.TakeWord | sacromonte.py:39 | the longest blank-free prefix |
| Text.FirstToken | sacromonte.py:39 | awk's `$1`: blank-free, standing after only blanks and ending at a blank or the end, and empty exactly when the record is all blanks |
| Text.ReadLines | sacromonte.py:58 | Python's `for line in open(...)`: each line with its newline; its meaning is given by ReadLinesCount, ReadLinesConcat, ReadLinesStripped and ReadLinesKeepNewline |
| Text.ReadLinesCount | sacromonte.py:58 | Python's file iteration yields as many lines as the stream has |
| Text.RStripNewlines | sacromonte.py:58 | `rstrip('\n')` removes all trailing newlines and nothing else |
| Text.ReadLinesConcat | sacromonte.py:58 | the lines Python yields concatenate to the file text |
| Text.ReadLinesStripped | sacromonte.py:58 | each yielded line with its newline stripped is exactly the corresponding stream line |
| Text.ReadLinesKeepNewline | sacromonte.py:58 | each yielded line, except an unterminated last one, is the stream line followed by exactly one newline |
| Pipeline.Grep | sacromonte.py:39 | grep prints no more lines than it reads, and every line it prints contains the pattern |
| Pipeline.GrepOne | sacromonte.py:39 | grep keeps a single line exactly when it contains the pattern |
| Pipeline.GrepAppend | sacromonte.py:39 | grep works line by line: on two pieces of input it prints what it prints for the first and then for the second, so order and repeated lines are kept |
| Pipeline.GrepMembers | sacromonte.py:39 | a line is in grep's output exactly when it is an input line containing the pattern |
| Pipeline.GrepNewlineFree | sacromonte.py:39 | grep's output lines are newline-free when its input's are |
| Pipeline.GrepStage | sacromonte.py:39 | `grep pat` as a stage from text to text; GrepStageOfLines gives its output on printed lines |
| Pipeline.TailStage | sacromonte.py:39 | `tail -1` as a stage from text to text; TailStageOfLines gives its output on printed lines |
| Pipeline.TailStageOfLines | sacromonte.py:39 | a tail stage fed printed newline-free lines prints the last of them, or nothing |
| Pipeline.Tail1 | sacromonte.py:39 | `tail -1` keeps at most one line, the last one, and nothing exactly when there is no input line |
| Pipeline.AwkFieldStage | sacromonte.py:39 | `awk -F"GTID" '{print $2}'` prints nothing exactly when it reads no line, and its output ends with a newline; AwkFieldStageLines gives each output line |
| Pipeline.AwkTokenStage | sacromonte.py:39 | `awk '{print $1}'` prints nothing exactly when it reads no line, and its output ends with a newline; AwkTokenStageLines gives each output line |
| Pipeline.AwkFieldStageLines | sacromonte.py:39 | `awk -F sep '{print $n}'` (here `-F"GTID"`, `$2`) prints one line per input line, in order, and line i is the n-th field of input line i |
| Pipeline.AwkTokenStageLines | sacromonte.py:39 | `awk '{print $1}'` prints one line per input line, in order, and line i is the first word of input line i |
| Pipeline.Extract | sacromonte.py:39 | the command's output is empty or ends with a newline |
| Pipeline.LastWithBoth | sacromonte.py:39 | the position of the last line containing both patterns, with no such line after it, or none when no line has both |
| Pipeline.LastGtidEvent | sacromonte.py:39 | the last line containing both "end_log_pos" and "GTID", or none exists |
| Pipeline.LastOfTwoGreps | sacromonte.py:39 | `grep a \| grep b \| tail -1` keeps exactly the last line containing both patterns |
| Pipeline.LastOfBothGreps | sacromonte.py:39 | `grep end_log_pos \| egrep GTID \| tail -1` keeps exactly the last line containing both words |
| Pipeline.GrepStageOfLines | sacromonte.py:39 | a grep stage fed printed lines prints exactly the kept lines |
| Pipeline.AwkStagesOfLine | sacromonte.py:39 | the two awk stages turn one line into its first token after the first "GTID", plus a newline |
| Pipeline.AwkStagesOfNothing | sacromonte.py:39 | the two awk stages print nothing for empty input |
| Pipeline.ExtractLastEvent | sacromonte.py:39 | the command prints "" when no line is a GTID event line, else the first token after "GTID" of the last such line followed by a newline |
| Pipeline.ExtractEmptyIff | sacromonte.py:39 | the command prints "" exactly when no decoded line contains both "end_log_pos" and "GTID" |
| Pipeline.ExtractShape | sacromonte.py:39 | the output is "" or a blank-free (possibly empty) token terminated by a newline |
| Pipeline.ExtractBareNewline | sacromonte.py:39 | a last GTID event line with nothing after "GTID" prints "\n", which is non-empty |
| Pipeline.ExtractDependsOnLastEvent | sacromonte.py:39 | two decoder outputs with the same last GTID event line extract alike |
| BinlogIndex.BinlogPaths | sacromonte.py:58 | one path per line of the index file |
| BinlogIndex.BinlogPathsLineByLine | sacromonte.py:58 | one path per index line, in order, each `location + '/' + line` without its newline; blank lines kept |
| Scanner.PyAt | sacromonte.py:18 | Python's negative index picks a list entry; `-1` is the newest entry and `-len` the oldest |
| Scanner.StopPosition | sacromonte.py:21-27 | the backward scan never goes past its starting position |
| Scanner.StopPositionIsNewestHit | sacromonte.py:21-27 | the scan stops at a file with output or at the oldest file, and every file it passed printed nothing |
| Scanner.StopAtNewestHit | sacromonte.py:21-27 | the stop position is the newest file the extractor prints something for (that no older file is read is DoGet's `visited` ensures) |
| Scanner.StopAtOldestWhenNoHit | sacromonte.py:22 | when no file prints anything, the scan ends at the first list entry |
| Scanner.Message | sacromonte.py:32 | the page starts with the GTID text and ends with "<br>Latest binlog: " and the newest file |
| Scanner.Report | sacromonte.py:29-32 | the page for a non-empty list starts with the stop file's output, or NOT_FOUND when it printed nothing, and ends with "<br>Latest binlog: " and the last list entry |
| Scanner.DoGet | sacromonte.py:11-34 | an empty list fails with IndexError before any file is read; otherwise the page is the specified report, and the files read are the newest one first, one step older each time, down to the stop position, so at most `len` files and every index valid |
| Scanner.ReportFound | sacromonte.py:29-32 | a page for a hit carries that file's output and that file as "Searched up to" |
| Scanner.ReportNotFound | sacromonte.py:29-32 | with no output anywhere the page says NOT_FOUND, searched up to `binlog_list[0]` |
| Scanner.Extractor | sacromonte.py:37-43 | what the extractor returns for any binlog is empty or ends with a newline |
| Scanner.ExtractorHitIff | sacromonte.py:37-43 | the extractor prints something for a file exactly when its decoded text has a GTID event line |
| Scanner.ScanStopsAtNewestGtidEvent | sacromonte.py:17-27 | with the real extractor, the scan stops at the newest binlog with a GTID event line, or at the oldest |
| Scanner.EndToEndScan | sacromonte.py:17-27 | from index text and decoder: the scan stops at the newest binlog with a GTID event line, or the oldest, and its path, built as at sacromonte.py:58, is the directory, a slash and its index line |

## Left out

- The HTTP server, the response status and headers, `wfile.write` and `run()`. These are network I/O. The model returns the page text, or the error, as a value.
- After the 200 status and headers are sent, an `IndexError` on an empty list ends the handler with no body. The model stops at the error value.
- Process spawning. The command runs twice, first through `subprocess.run(..., check=True)` with its output going to the service's own stdout, then through `check_output`. The model keeps one run and abstracts it as a function. The pipeline's exit status is the last `awk`'s, so a failing decoder shows up only as missing output. Decoder failures and `check=True` exceptions are not modelled.
- The ASCII decoding of the command's output (`decode('ascii')`), which raises on non-ASCII bytes. The model works on characters.
- Python's universal-newline translation of `\r\n` and `\r` when reading the index file. The model takes the text after translation.
- `configparser`, the hard-coded config path, the index-file path `location + '/' + basename + '.index'` and the file read itself. These are configuration and file I/O. The model takes the directory and the index file's text as parameters.
- `print` logging and the module globals `listOfBinlogs` and `mb_executable`. They have no behaviour to verify.
- grep and awk patterns are treated as literal strings. For `end_log_pos` and `GTID` a regular expression match and a literal match are the same thing.
- Blanks for awk's default field splitting are space, tab and newline. Other locale-dependent blank characters are not modelled.
- The command runs with no timeout, so a hung decoder blocks the handler. Not modelled.
- GNU grep's binary-input handling. When the decoder's output holds a NUL byte or bytes invalid in the locale's encoding, grep suppresses its output after a NUL byte and drops lines with invalid bytes, so the command can print "" or an earlier event's token where `Extract` gives the last event's token. The model treats the decoder's output as text.
- Shell parsing of the binlog path. `binary_log` is pasted unquoted into a `shell=True` and `bash -c` command line, so a path with blanks or shell metacharacters changes the command itself. The decoder parameter `decode(path)` does not capture that; the model assumes paths the shell passes through as one word.
