/** The two process-listing parsers of `get_node_processes`: the text a
    listing command prints is turned into `(pid, command)` records. The
    commands themselves are run outside the model; their standard output is
    the input here. */
module Listing {
  import opened Seqs
  import opened PyStr

  /** The operating-system family the tool branches on. */
  datatype Platform = Windows | Unix

  /** One listed process: the pid exactly as the listing printed it, and
      its command line. */
  datatype Process = Process(pid: string, command: string)

  /** The lines both parsers walk: `stdout.strip().split('\n')`. There is
      always at least one, and gluing them back with newlines gives the
      stripped output. */
  function OutputLines(stdout: string): (lines: seq<string>)
    ensures |lines| >= 1
    ensures forall i :: 0 <= i < |lines| ==> !Contains(lines[i], "\n")
    ensures Join(lines, "\n") == Strip(stdout)
  {
    Split(Strip(stdout), "\n")
  }

  // ---------------------------------------------------------------------
  // Unix: `ps -eo pid,command` output
  // ---------------------------------------------------------------------

  /** The command filter of the Unix branch. */
  predicate IsNodeCommand(command: string) {
    StartsWith(command, "node ") || StartsWith(command, "nodejs ") || Contains(command, "node ")
  }

  /** One line of `ps` output: the stripped line split once on whitespace
      into pid and command, kept when the command passes the filter. */
  function PsRecord(line: string): Option<Process> {
    var t := Strip(line);
    if t == [] then None
    else
      var parts := SplitOnce(t);
      if |parts| >= 2 && IsNodeCommand(parts[1]) then Some(Process(parts[0], parts[1]))
      else None
  }

  /** A `ps` line yields a record exactly when the stripped line is the pid
      (a whitespace-free word), a whitespace gap, and the command (starting
      with non-whitespace), and the command passes the filter. */
  lemma PsRecordIff(line: string, p: Process)
    ensures PsRecord(line) == Some(p) <==>
      (exists gap :: WordGapRest(Strip(line), p.pid, gap, p.command)) && IsNodeCommand(p.command)
  {
    var t := Strip(line);
    if PsRecord(line) == Some(p) {
      var gap := SplitOnceParts(t, p.pid, p.command);
    }
    if exists gap :: WordGapRest(t, p.pid, gap, p.command) {
      var gap :| WordGapRest(t, p.pid, gap, p.command);
      SplitOnceOfParts(t, p.pid, gap, p.command);
    }
  }

  /** The fields of a kept `ps` record: the pid is one non-empty
      whitespace-free word, and the command is non-empty, has no whitespace
      at either end, and passes the filter. */
  lemma PsRecordFields(line: string)
    requires PsRecord(line).Some?
    ensures IsWord(PsRecord(line).value.pid)
    ensures PsRecord(line).value.command != [] && Trimmed(PsRecord(line).value.command, IsSpace)
    ensures IsNodeCommand(PsRecord(line).value.command)
  {
    var p := PsRecord(line).value;
    var t := Strip(line);
    var gap := SplitOnceParts(t, p.pid, p.command);
    assert t[|t| - 1] == p.command[|p.command| - 1];
  }

  /** The Unix branch: every line of the output, in order, through `PsRecord`. */
  function ParsePs(stdout: string): (ps: seq<Process>)
    ensures |ps| <= |OutputLines(stdout)|
  {
    FilterMap(OutputLines(stdout), PsRecord)
  }

  /** The Unix records are the records of the accepted lines, in line
      order, and a line contributes exactly when `PsRecord` accepts it. */
  lemma ParsePsSelects(stdout: string)
    ensures var lines, idx := OutputLines(stdout), KeptIndices(OutputLines(stdout), PsRecord);
      && |idx| == |ParsePs(stdout)|
      && (forall k :: 0 <= k < |idx| ==> idx[k] < |lines| && PsRecord(lines[idx[k]]) == Some(ParsePs(stdout)[k]))
      && (forall k, l :: 0 <= k < l < |idx| ==> idx[k] < idx[l])
      && (forall i :: 0 <= i < |lines| ==> (PsRecord(lines[i]).Some? <==> i in idx))
  {
    FilterMapSelects(OutputLines(stdout), PsRecord);
  }

  /** Every record of the Unix branch comes from one output line, has a
      one-word pid and a stripped command that passes the filter. */
  lemma ParsePsRecords(stdout: string, p: Process)
    requires p in ParsePs(stdout)
    ensures exists i :: 0 <= i < |OutputLines(stdout)| && PsRecord(OutputLines(stdout)[i]) == Some(p)
    ensures IsWord(p.pid) && p.command != [] && Trimmed(p.command, IsSpace) && IsNodeCommand(p.command)
  {
    var lines := OutputLines(stdout);
    FilterMapMember(lines, PsRecord, p);
    var i :| 0 <= i < |lines| && PsRecord(lines[i]) == Some(p);
    PsRecordFields(lines[i]);
  }

  /** The prefix test for "node " adds nothing to the containment test: the
      filter keeps a command exactly when it starts with "nodejs " or
      contains "node " somewhere. */
  lemma NodeCommandSimplified(command: string)
    ensures IsNodeCommand(command) <==> StartsWith(command, "nodejs ") || Contains(command, "node ")
  {
    if StartsWith(command, "node ") {
      assert OccursAt(command, "node ", 0);
    }
  }

  // ---------------------------------------------------------------------
  // Windows: `tasklist /FO CSV /NH` output
  // ---------------------------------------------------------------------

  /** The text between two quoted CSV fields. */
  const FieldSeparator := "\",\""

  /** The image name the Windows branch looks for, and reports as the command. */
  const NodeImage := "node.exe"

  /** One line of `tasklist` CSV output: split on `","`; with at least two
      fields, the first (unquoted, lower-cased) must be the node image, and
      the second (unquoted) is the pid. */
  function TasklistRecord(line: string): (r: Option<Process>)
    ensures r.Some? ==> line != [] && r.value.command == NodeImage
    ensures r.Some? ==> Trimmed(r.value.pid, IsQuote) && !Contains(r.value.pid, FieldSeparator)
  {
    if line == [] then None
    else
      var parts := Split(line, FieldSeparator);
      if |parts| >= 2 then
        var pid := StripQuotes(parts[1]);
        var name := StripQuotes(parts[0]);
        NoSeparatorInPiece(parts[1], pid);
        if Lower(name) == NodeImage then Some(Process(pid, NodeImage)) else None
      else None
  }

  /** A line holding no `","` is one field, and yields no record: this is
      what happens to the "INFO: No tasks are running" line. */
  lemma TasklistNoSeparator(line: string)
    requires !Contains(line, FieldSeparator)
    ensures TasklistRecord(line) == None
  {
    if line != [] {
      var parts := Split(line, FieldSeparator);
      assert Find(line, FieldSeparator).None?;
      assert parts == [line];
    }
  }

  /** A piece of a text free of the separator is free of it too. */
  lemma NoSeparatorInPiece(s: string, piece: string)
    requires !Contains(s, FieldSeparator)
    requires exists i :: CutFrom(s, piece, i, IsQuote)
    ensures !Contains(piece, FieldSeparator)
  {
    var i :| CutFrom(s, piece, i, IsQuote);
    assert |FieldSeparator| == 3;
    forall j | 0 <= j <= |piece| - |FieldSeparator|
      ensures !OccursAt(piece, FieldSeparator, j)
    {
      OccursInPiece(s, FieldSeparator, i, i + |piece|, j);
    }
  }

  /** The Windows branch: every line of the output, in order, through
      `TasklistRecord`. */
  function ParseTasklist(stdout: string): (ps: seq<Process>)
    ensures |ps| <= |OutputLines(stdout)|
  {
    FilterMap(OutputLines(stdout), TasklistRecord)
  }

  /** The Windows records are the records of the accepted lines, in line
      order, and a line contributes exactly when `TasklistRecord` accepts it. */
  lemma ParseTasklistSelects(stdout: string)
    ensures var lines, idx := OutputLines(stdout), KeptIndices(OutputLines(stdout), TasklistRecord);
      && |idx| == |ParseTasklist(stdout)|
      && (forall k :: 0 <= k < |idx| ==> idx[k] < |lines| && TasklistRecord(lines[idx[k]]) == Some(ParseTasklist(stdout)[k]))
      && (forall k, l :: 0 <= k < l < |idx| ==> idx[k] < idx[l])
      && (forall i :: 0 <= i < |lines| ==> (TasklistRecord(lines[i]).Some? <==> i in idx))
  {
    FilterMapSelects(OutputLines(stdout), TasklistRecord);
  }

  /** Every record of the Windows branch comes from one output line and
      reports the node image as its command. */
  lemma ParseTasklistRecords(stdout: string, p: Process)
    requires p in ParseTasklist(stdout)
    ensures exists i :: 0 <= i < |OutputLines(stdout)| && TasklistRecord(OutputLines(stdout)[i]) == Some(p)
    ensures p.command == NodeImage && Trimmed(p.pid, IsQuote)
  {
    FilterMapMember(OutputLines(stdout), TasklistRecord, p);
  }

  /** A row as `tasklist /FO CSV` prints it: every field in double quotes,
      the fields separated by commas. */
  function CsvRow(fields: seq<string>): string {
    "\"" + Join(fields, FieldSeparator) + "\""
  }

  /** Reading a CSV row back: with at least two quote-free fields (the
      first not a lone comma), the record is the second field as pid
      exactly when the first field, lower-cased, is the node image. */
  lemma TasklistRoundTrip(fields: seq<string>)
    requires |fields| >= 2
    requires forall i :: 0 <= i < |fields| ==> '"' !in fields[i]
    requires fields[0] != ","
    ensures TasklistRecord(CsvRow(fields)) ==
      if Lower(fields[0]) == NodeImage then Some(Process(fields[1], NodeImage)) else None
  {
    var line := CsvRow(fields);
    assert line != [];
    var parts := SplitCsvRow(fields);
    Unquote(fields[0]);
    Unquote(fields[1]);
  }

  /** Removing the quotes around a quote-free text, on either side or none. */
  lemma Unquote(f: string)
    requires '"' !in f
    ensures StripQuotes("\"" + f) == f
    ensures StripQuotes(f + "\"") == f
    ensures StripQuotes(f) == f
  {
    assert forall k :: 0 <= k < |f| ==> !IsQuote(f[k]);
    StripUnique("\"" + f, IsQuote, f, 1);
    StripUnique(f + "\"", IsQuote, f, 0);
    StripUnique(f, IsQuote, f, 0);
  }

  /** A quoted CSV row splits on `","` into its fields, the first still
      carrying the opening quote and the last the closing one. */
  lemma SplitCsvRow(fields: seq<string>) returns (parts: seq<string>)
    requires |fields| >= 2
    requires forall i :: 0 <= i < |fields| ==> '"' !in fields[i]
    requires fields[0] != ","
    ensures parts == Split(CsvRow(fields), FieldSeparator)
    ensures |parts| == |fields| >= 2
    ensures parts[0] == "\"" + fields[0]
    ensures parts[1] == (if |fields| == 2 then fields[1] + "\"" else fields[1])
  {
    var n := |fields|;
    parts := ["\"" + fields[0]] + fields[1..n - 1] + [fields[n - 1] + "\""];
    JoinQuoted(fields, FieldSeparator);
    QuotedPieces(fields);
    SplitJoin(parts, FieldSeparator);
  }

  /** Quoting the ends of the fields quotes the ends of their join. */
  lemma JoinQuoted(fields: seq<string>, sep: string)
    requires |fields| >= 2
    ensures Join(["\"" + fields[0]] + fields[1..|fields| - 1] + [fields[|fields| - 1] + "\""], sep)
         == "\"" + Join(fields, sep) + "\""
  {
    var n := |fields|;
    var inner := fields[1..n - 1] + [fields[n - 1] + "\""];
    assert ["\"" + fields[0]] + fields[1..n - 1] + [fields[n - 1] + "\""] == ["\"" + fields[0]] + inner;
    JoinAppendLast(fields[1..], sep);
    assert fields[1..][..|fields[1..]| - 1] == fields[1..n - 1];
    assert fields[1..][|fields[1..]| - 1] == fields[n - 1];
  }

  /** Appending a quote to the last part appends it to the join. */
  lemma {:induction false} JoinAppendLast(parts: seq<string>, sep: string)
    requires |parts| >= 1
    ensures Join(parts[..|parts| - 1] + [parts[|parts| - 1] + "\""], sep) == Join(parts, sep) + "\""
    decreases |parts|
  {
    var n := |parts|;
    var q := parts[..n - 1] + [parts[n - 1] + "\""];
    if n > 1 {
      JoinAppendLast(parts[1..], sep);
      assert q[1..] == parts[1..][..n - 2] + [parts[1..][n - 2] + "\""];
      assert q[0] == parts[0];
    }
  }

  /** A text whose double quotes all sit at positions `a` and `b`
      (`a <= b`), with no comma between them when they are two apart,
      holds no `","`. */
  lemma QuotesOnlyAt(x: string, a: int, b: int)
    requires a <= b
    requires forall k :: 0 <= k < |x| && x[k] == '"' ==> k == a || k == b
    requires b == a + 2 && 0 <= a + 1 < |x| ==> x[a + 1] != ','
    ensures !Contains(x, FieldSeparator)
  {
    forall j | 0 <= j <= |x| - 3
      ensures !OccursAt(x, FieldSeparator, j)
    {
      SeparatorChars(x, j);
    }
  }

  /** `","` at `j` is a quote, a comma and a quote. */
  lemma SeparatorChars(x: string, j: int)
    ensures OccursAt(x, FieldSeparator, j) ==> x[j] == '"' && x[j + 1] == ',' && x[j + 2] == '"'
  {
    if OccursAt(x, FieldSeparator, j) {
      var w := x[j..j + 3];
      assert w == FieldSeparator;
      assert x[j] == w[0] && x[j + 1] == w[1] && x[j + 2] == w[2];
    }
  }

  /** The pieces a quoted CSV row splits into are leftmost cuts. */
  lemma QuotedPieces(fields: seq<string>)
    requires |fields| >= 2
    requires forall i :: 0 <= i < |fields| ==> '"' !in fields[i]
    requires fields[0] != ","
    ensures SplitPieces(["\"" + fields[0]] + fields[1..|fields| - 1] + [fields[|fields| - 1] + "\""], FieldSeparator)
  {
    var n := |fields|;
    var sep := FieldSeparator;
    var tail := sep[..|sep| - 1];
    assert tail == "\",";
    var first := "\"" + fields[0];
    var last := fields[n - 1] + "\"";
    var parts := [first] + fields[1..n - 1] + [last];
    assert forall k :: 0 <= k < |fields[0]| ==> fields[0][k] != '"';
    QuotesOnlyAt(first, 0, 0);
    assert |fields[0]| == 1 ==> fields[0][0] != ',' by {
      if |fields[0]| == 1 {
        assert fields[0] == [fields[0][0]];
      }
    }
    QuotesOnlyAt(first + tail, 0, |fields[0]| + 1);
    QuotesOnlyAt(last, |fields[n - 1]|, |fields[n - 1]|);
    forall i | 1 <= i < n - 1
      ensures !Contains(parts[i], sep) && !Contains(parts[i] + tail, sep)
    {
      assert parts[i] == fields[i];
      QuotesOnlyAt(fields[i], |fields[i]|, |fields[i]|);
      QuotesOnlyAt(fields[i] + tail, |fields[i]|, |fields[i]|);
    }
  }

  // ---------------------------------------------------------------------
  // get_node_processes
  // ---------------------------------------------------------------------

  /** `get_node_processes`: the listing command's standard output, or
      `None` when running it raised, in which case the result is empty. */
  function NodeProcesses(platform: Platform, stdout: Option<string>): (ps: seq<Process>)
    ensures stdout.None? ==> ps == []
    ensures stdout.Some? ==> |ps| <= |OutputLines(stdout.value)|
    ensures platform == Windows ==> forall p :: p in ps ==> p.command == NodeImage
  {
    match stdout
    case None => []
    case Some(out) =>
      if platform == Windows then
        var ps := ParseTasklist(out);
        assert forall p :: p in ps ==> p.command == NodeImage by {
          forall p | p in ps ensures p.command == NodeImage {
            ParseTasklistRecords(out, p);
          }
        }
        ps
      else ParsePs(out)
  }
}
