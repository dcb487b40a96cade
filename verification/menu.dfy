/** The logic of `main` once the processes are listed: the display of each
    process, the parsing of the menu choice and of the comma-separated pid
    list, the membership filter, and the success counts. `terminate_process`
    enters as an oracle: `verdict(k)` is what its k-th call returns. */
module Menu {
  import opened Seqs
  import opened PyStr
  import opened Listing

  // ---------------------------------------------------------------------
  // Display
  // ---------------------------------------------------------------------

  /** Commands longer than this are cut for display. */
  const DisplayWidth: nat := 60

  /** Appended to a cut command. */
  const Ellipsis := "..."

  /** `command[:60] + '...' if len(command) > 60 else command`. */
  function Shorten(command: string): (r: string)
    ensures |command| <= DisplayWidth ==> r == command
    ensures |command| > DisplayWidth ==>
      |r| == DisplayWidth + |Ellipsis| && r[..DisplayWidth] == command[..DisplayWidth]
      && r[DisplayWidth..] == Ellipsis
  {
    if |command| > DisplayWidth then command[..DisplayWidth] + Ellipsis else command
  }

  /** A shown command is never longer than 63 characters, begins like the
      command, and a short command is shown whole; showing it again changes
      nothing. */
  lemma ShortenBounds(command: string)
    ensures |Shorten(command)| <= DisplayWidth + |Ellipsis|
    ensures |Shorten(command)| >= |command| || |Shorten(command)| == DisplayWidth + |Ellipsis|
    ensures forall k :: 0 <= k < |command| && k < DisplayWidth ==> Shorten(command)[k] == command[k]
    ensures Shorten(Shorten(command)) == Shorten(command)
  {
    if |command| > DisplayWidth {
      var r := Shorten(command);
      assert r[..DisplayWidth] == command[..DisplayWidth];
      assert Shorten(r) == r[..DisplayWidth] + Ellipsis;
    }
  }

  /** Width of the pid column, `{:<8}`. */
  const PidWidth: nat := 8

  /** `format(s, '<width')`: left-aligned, padded with spaces, never cut. */
  function PadRight(s: string, width: nat): (r: string)
    ensures |r| == if |s| < width then width else |s|
    ensures r[..|s|] == s
    ensures forall k :: |s| <= k < |r| ==> r[k] == ' '
  {
    if |s| < width then s + seq(width - |s|, _ => ' ') else s
  }

  /** One row of the process table, `"{:<8} {}".format(pid, shown)`. */
  function Row(p: Process): string {
    PadRight(p.pid, PidWidth) + " " + Shorten(p.command)
  }

  /** A row reads back: for a pid without whitespace and a command that
      does not start with whitespace, the first whitespace-separated field
      of the row is the pid and the remainder is the shown command. */
  lemma RowReadsBack(p: Process)
    requires IsWord(p.pid) && p.command != [] && !IsSpace(p.command[0])
    ensures SplitOnce(Row(p)) == [p.pid, Shorten(p.command)]
  {
    var pad := PadRight(p.pid, PidWidth);
    var gap := pad[|p.pid|..] + " ";
    var shown := Shorten(p.command);
    assert shown[0] == p.command[0];
    assert pad == p.pid + pad[|p.pid|..];
    assert Row(p) == p.pid + gap + shown;
    SplitOnceOfParts(Row(p), p.pid, gap, shown);
  }

  // ---------------------------------------------------------------------
  // Choice
  // ---------------------------------------------------------------------

  datatype Choice = TerminateAll | TerminateSelected | Cancel | Invalid

  /** `input(...).strip()` compared with "1", "2" and "3". */
  function ParseChoice(line: string): (c: Choice)
    ensures c == TerminateAll <==> Strip(line) == "1"
    ensures c == TerminateSelected <==> Strip(line) == "2"
    ensures c == Cancel <==> Strip(line) == "3"
  {
    var s := Strip(line);
    if s == "1" then TerminateAll
    else if s == "2" then TerminateSelected
    else if s == "3" then Cancel
    else Invalid
  }

  // ---------------------------------------------------------------------
  // Pid selection
  // ---------------------------------------------------------------------

  /** The comma-separated pieces of the stripped input line. */
  function Tokens(line: string): seq<string> {
    Split(Strip(line), ",")
  }

  /** `pid.strip()` kept when it is not empty. */
  function Token(piece: string): Option<string> {
    if Strip(piece) != [] then Some(Strip(piece)) else None
  }

  predicate NoComma(s: string) {
    forall k :: 0 <= k < |s| ==> s[k] != ','
  }

  /** A selected pid: non-empty, without surrounding whitespace, and
      without a comma. */
  predicate IsPidToken(s: string) {
    s != [] && Trimmed(s, IsSpace) && NoComma(s)
  }

  /** `[pid.strip() for pid in pids_input.split(',') if pid.strip()]`. */
  function SelectPids(line: string): (selected: seq<string>)
    ensures |selected| <= |Tokens(line)|
    ensures forall k :: 0 <= k < |selected| ==> IsPidToken(selected[k])
  {
    var tokens := Tokens(line);
    var selected := FilterMap(tokens, Token);
    SelectedAreTokens(tokens);
    selected
  }

  /** Every pid kept from comma-free pieces is a pid token. */
  lemma SelectedAreTokens(tokens: seq<string>)
    requires forall i :: 0 <= i < |tokens| ==> !Contains(tokens[i], ",")
    ensures forall k :: 0 <= k < |FilterMap(tokens, Token)| ==> IsPidToken(FilterMap(tokens, Token)[k])
  {
    FilterMapSelects(tokens, Token);
    forall k | 0 <= k < |FilterMap(tokens, Token)| ensures IsPidToken(FilterMap(tokens, Token)[k]) {
      StrippedHasNoComma(tokens[KeptIndices(tokens, Token)[k]]);
    }
  }

  /** A stripped piece holds no comma when the piece holds none. */
  lemma StrippedHasNoComma(piece: string)
    requires !Contains(piece, ",")
    ensures NoComma(Strip(piece))
  {
    var r := Strip(piece);
    var i :| CutFrom(piece, r, i, IsSpace);
    forall k | 0 <= k < |r| ensures r[k] != ',' {
      assert !OccursAt(piece, ",", i + k);
      assert piece[i + k..i + k + 1] == [r[k]];
    }
  }

  /** The selected pids are exactly the non-empty stripped pieces, in
      input order: the k-th selected pid is the stripped piece at the k-th
      ascending position, and a piece is selected exactly when it is not
      blank. */
  lemma SelectPidsOrder(line: string)
    ensures var tokens, idx := Tokens(line), KeptIndices(Tokens(line), Token);
      && |idx| == |SelectPids(line)|
      && (forall k :: 0 <= k < |idx| ==> idx[k] < |tokens| && SelectPids(line)[k] == Strip(tokens[idx[k]]))
      && (forall k, l :: 0 <= k < l < |idx| ==> idx[k] < idx[l])
      && (forall i :: 0 <= i < |tokens| ==> (Strip(tokens[i]) != [] <==> i in idx))
  {
    KeptTokens(Tokens(line));
  }

  /** `SelectPidsOrder` for any sequence of pieces. */
  lemma KeptTokens(tokens: seq<string>)
    ensures var idx := KeptIndices(tokens, Token);
      && |idx| == |FilterMap(tokens, Token)|
      && (forall k :: 0 <= k < |idx| ==> idx[k] < |tokens| && FilterMap(tokens, Token)[k] == Strip(tokens[idx[k]]))
      && (forall k, l :: 0 <= k < l < |idx| ==> idx[k] < idx[l])
      && (forall i :: 0 <= i < |tokens| ==> (Strip(tokens[i]) != [] <==> i in idx))
  {
    FilterMapSelects(tokens, Token);
    var idx := KeptIndices(tokens, Token);
    forall i | 0 <= i < |tokens| ensures Strip(tokens[i]) != [] <==> i in idx {
      assert Token(tokens[i]).Some? <==> Strip(tokens[i]) != [];
    }
  }

  /** Round trip: pids joined with commas are selected back unchanged. */
  lemma SelectJoin(pids: seq<string>)
    requires forall k :: 0 <= k < |pids| ==> IsPidToken(pids[k])
    ensures SelectPids(Join(pids, ",")) == pids
  {
    if pids == [] {
      EmptySelection();
    } else {
      JoinedLineTokens(pids);
      PidTokensKept(pids);
      assert SelectPids(Join(pids, ",")) == FilterMap(pids, Token);
    }
  }

  /** The pieces of a joined line are the joined pids. */
  lemma JoinedLineTokens(pids: seq<string>)
    requires pids != []
    requires forall k :: 0 <= k < |pids| ==> IsPidToken(pids[k])
    ensures Tokens(Join(pids, ",")) == pids
  {
    var s := Join(pids, ",");
    JoinTrimmed(pids);
    StripUnique(s, IsSpace, s, 0);
    JoinedTokens(pids);
  }

  /** Pid tokens survive `strip` and the blank test unchanged. */
  lemma PidTokensKept(pids: seq<string>)
    requires forall k :: 0 <= k < |pids| ==> IsPidToken(pids[k])
    ensures FilterMap(pids, Token) == pids
  {
    forall k | 0 <= k < |pids| ensures Token(pids[k]) == Some(pids[k]) {
      StripUnique(pids[k], IsSpace, pids[k], 0);
    }
    FilterMapKeepsAll(pids, Token);
  }

  /** An empty line selects nothing. */
  lemma EmptySelection()
    ensures SelectPids("") == []
  {
    StripUnique("", IsSpace, "", 0);
    assert Join([""], ",") == "";
    SplitJoin([""], ",");
  }

  /** Comma-free pieces joined with commas split back into themselves. */
  lemma JoinedTokens(pids: seq<string>)
    requires pids != []
    requires forall k :: 0 <= k < |pids| ==> NoComma(pids[k])
    ensures Split(Join(pids, ","), ",") == pids
  {
    forall k | 0 <= k < |pids| ensures !Contains(pids[k], ",") && !Contains(pids[k] + ","[..0], ",") {
      NoCommaNoOccurrence(pids[k]);
      assert pids[k] + ","[..0] == pids[k];
    }
    SplitJoin(pids, ",");
  }

  lemma NoCommaNoOccurrence(s: string)
    requires NoComma(s)
    ensures !Contains(s, ",")
  {
    forall i | 0 <= i <= |s| - 1 ensures !OccursAt(s, ",", i) {
      assert s[i..i + 1][0] == s[i];
    }
  }

  /** Joining pid tokens yields non-empty text without surrounding
      whitespace. */
  lemma {:induction false} JoinTrimmed(pids: seq<string>)
    requires pids != []
    requires forall k :: 0 <= k < |pids| ==> IsPidToken(pids[k])
    ensures Join(pids, ",") != [] && Trimmed(Join(pids, ","), IsSpace)
    decreases |pids|
  {
    assert IsPidToken(pids[0]);
    if |pids| > 1 {
      var t := Join(pids[1..], ",");
      JoinTrimmed(pids[1..]);
      assert Join(pids, ",") == pids[0] + "," + t;
    }
  }

  // ---------------------------------------------------------------------
  // Membership and counting
  // ---------------------------------------------------------------------

  /** `any(pid == p[0] for p in processes)`. */
  predicate Listed(processes: seq<Process>, pid: string) {
    exists i :: 0 <= i < |processes| && processes[i].pid == pid
  }

  /** The selected pids that reach `terminate_process`, in order. */
  function Targets(processes: seq<Process>, selected: seq<string>): (calls: seq<string>)
    ensures |calls| <= |selected|
  {
    FilterMap(selected, (pid: string) => if Listed(processes, pid) then Some(pid) else None)
  }

  /** The selected pids reported as not found, in order. */
  function Missing(processes: seq<Process>, selected: seq<string>): (missing: seq<string>)
    ensures |missing| <= |selected|
  {
    FilterMap(selected, (pid: string) => if Listed(processes, pid) then None else Some(pid))
  }

  /** Only listed pids are targeted, every listed selection is, and an
      unlisted pid never reaches `terminate_process`. */
  lemma TargetsListed(processes: seq<Process>, selected: seq<string>)
    ensures forall pid :: pid in Targets(processes, selected) <==> pid in selected && Listed(processes, pid)
    ensures forall pid :: pid in Missing(processes, selected) <==> pid in selected && !Listed(processes, pid)
    ensures |Targets(processes, selected)| + |Missing(processes, selected)| == |selected|
  {
    var keep := (pid: string) => if Listed(processes, pid) then Some(pid) else None;
    var drop := (pid: string) => if Listed(processes, pid) then None else Some(pid);
    forall pid ensures pid in Targets(processes, selected) <==> pid in selected && Listed(processes, pid) {
      if pid in Targets(processes, selected) {
        FilterMapMember(selected, keep, pid);
      }
      if pid in selected && Listed(processes, pid) {
        var i :| 0 <= i < |selected| && selected[i] == pid;
        FilterMapComplete(selected, keep, i);
      }
    }
    forall pid ensures pid in Missing(processes, selected) <==> pid in selected && !Listed(processes, pid) {
      if pid in Missing(processes, selected) {
        FilterMapMember(selected, drop, pid);
      }
      if pid in selected && !Listed(processes, pid) {
        var i :| 0 <= i < |selected| && selected[i] == pid;
        FilterMapComplete(selected, drop, i);
      }
    }
    PartitionSizes(processes, selected);
  }

  lemma {:induction false} PartitionSizes(processes: seq<Process>, selected: seq<string>)
    ensures |Targets(processes, selected)| + |Missing(processes, selected)| == |selected|
    decreases |selected|
  {
    if selected != [] {
      PartitionSizes(processes, selected[..|selected| - 1]);
    }
  }

  /** How many of the first `n` calls returned True. */
  function Successes(verdict: nat -> bool, n: nat): (count: nat)
    ensures count <= n
  {
    if n == 0 then 0 else Successes(verdict, n - 1) + (if verdict(n - 1) then 1 else 0)
  }

  /** The count is the number of calls that returned True. */
  lemma {:induction false} SuccessesCounts(verdict: nat -> bool, n: nat)
    ensures Successes(verdict, n) == |set k | 0 <= k < n && verdict(k)|
  {
    if n > 0 {
      SuccessesCounts(verdict, n - 1);
      var before := set k | 0 <= k < n - 1 && verdict(k);
      var now := set k | 0 <= k < n && verdict(k);
      if verdict(n - 1) {
        assert now == before + {n - 1};
      } else {
        assert now == before;
      }
    }
  }

  /** Option 1: `terminate_process` on every listed pid, in order, counting
      the calls that returned True. */
  method TerminateEvery(processes: seq<Process>, verdict: nat -> bool) returns (calls: seq<string>, count: nat)
    ensures |calls| == |processes|
    ensures forall k :: 0 <= k < |calls| ==> calls[k] == processes[k].pid
    ensures count == Successes(verdict, |calls|)
    ensures count <= |processes|
  {
    calls, count := [], 0;
    for i := 0 to |processes|
      invariant |calls| == i
      invariant forall k :: 0 <= k < i ==> calls[k] == processes[k].pid
      invariant count == Successes(verdict, i)
    {
      if verdict(|calls|) {
        count := count + 1;
      }
      calls := calls + [processes[i].pid];
    }
  }

  /** Option 2: `terminate_process` on each selected pid that is listed, in
      selection order, counting the calls that returned True; the others
      are reported as not found. */
  method TerminateChosen(processes: seq<Process>, selected: seq<string>, verdict: nat -> bool)
    returns (calls: seq<string>, count: nat, missing: seq<string>)
    ensures calls == Targets(processes, selected)
    ensures missing == Missing(processes, selected)
    ensures forall k :: 0 <= k < |calls| ==> Listed(processes, calls[k])
    ensures count == Successes(verdict, |calls|)
    ensures count <= |calls| <= |selected|
  {
    calls, count, missing := [], 0, [];
    for i := 0 to |selected|
      invariant calls == Targets(processes, selected[..i])
      invariant missing == Missing(processes, selected[..i])
      invariant forall k :: 0 <= k < |calls| ==> Listed(processes, calls[k])
      invariant count == Successes(verdict, |calls|)
    {
      assert selected[..i + 1][..i] == selected[..i];
      var pid := selected[i];
      if Listed(processes, pid) {
        if verdict(|calls|) {
          count := count + 1;
        }
        calls := calls + [pid];
      } else {
        missing := missing + [pid];
      }
    }
    assert selected[..|selected|] == selected;
  }

  // ---------------------------------------------------------------------
  // main
  // ---------------------------------------------------------------------

  /** What `main` ends with. `Finished(count, total)` is the line
      "Terminated count/total processes successfully." */
  datatype Report =
    | NoProcesses
    | Finished(count: nat, total: nat)
    | NoValidPids
    | Cancelled
    | InvalidChoice

  /** `main` after the listing: `choiceLine` and `pidsLine` are what the two
      prompts read, and `calls` the pids `terminate_process` is called with. */
  method RunMenu(processes: seq<Process>, choiceLine: string, pidsLine: string, verdict: nat -> bool)
    returns (report: Report, calls: seq<string>)
    ensures processes == [] ==> report == NoProcesses && calls == []
    ensures !report.Finished? ==> calls == []
    ensures report.Finished? ==> report.count <= report.total
    ensures report.Finished? && ParseChoice(choiceLine) == TerminateAll ==> report.total == |processes|
    ensures report.Finished? && ParseChoice(choiceLine) == TerminateSelected ==>
      report.total == |SelectPids(pidsLine)| && calls == Targets(processes, SelectPids(pidsLine))
    ensures forall k :: 0 <= k < |calls| ==> Listed(processes, calls[k])
    ensures processes != [] && ParseChoice(choiceLine) == Cancel ==> report == Cancelled && calls == []
    ensures processes != [] && ParseChoice(choiceLine) == Invalid ==> report == InvalidChoice && calls == []
    ensures processes != [] && ParseChoice(choiceLine) == TerminateSelected ==>
      (report == NoValidPids <==> SelectPids(pidsLine) == [])
    ensures processes != [] && ParseChoice(choiceLine) == TerminateAll ==>
      && |calls| == |processes|
      && (forall k :: 0 <= k < |calls| ==> calls[k] == processes[k].pid)
      && report == Finished(Successes(verdict, |calls|), |processes|)
    ensures processes != [] && ParseChoice(choiceLine) == TerminateSelected && SelectPids(pidsLine) != [] ==>
      && calls == Targets(processes, SelectPids(pidsLine))
      && report == Finished(Successes(verdict, |calls|), |SelectPids(pidsLine)|)
  {
    calls := [];
    if processes == [] {
      return NoProcesses, calls;
    }
    match ParseChoice(choiceLine)
    case TerminateAll =>
      var count;
      calls, count := TerminateEvery(processes, verdict);
      forall k | 0 <= k < |calls| ensures Listed(processes, calls[k]) {
        assert processes[k].pid == calls[k];
      }
      report := Finished(count, |processes|);
    case TerminateSelected =>
      var selected := SelectPids(pidsLine);
      if selected == [] {
        report := NoValidPids;
      } else {
        var count, missing;
        calls, count, missing := TerminateChosen(processes, selected, verdict);
        report := Finished(count, |selected|);
      }
    case Cancel =>
      report := Cancelled;
    case Invalid =>
      report := InvalidChoice;
  }
}
