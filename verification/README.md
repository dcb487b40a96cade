# Node.js process terminator — a Dafny model

`stop_node_servers.py` lists the running Node.js processes, shows them in a
table, asks whether to terminate all of them, some of them (by pid) or none,
and terminates each chosen process in two phases. The first phase is a
graceful request (SIGTERM, or `taskkill`), followed by a 2-second wait. The
second phase is a forceful request (SIGKILL, or `taskkill /F`), followed by a
1-second wait. At the end the tool reports how many terminations succeeded.

This project models the deterministic part of that program:

- `seqs.dfy`, module `Seqs`: an option type and `FilterMap`. `FilterMap` is
  the "append each accepted element" loop that both listing parsers and the
  pid selection use. Its lemmas state that it keeps exactly the accepted
  elements, in order.
- `py_str.dfy`, module `PyStr`: the Python string operations the program
  relies on, written from their definitions:
  - `str.isspace`;
  - `strip()` and `strip('"')`;
  - `split(sep)`, with its inverse `sep.join`;
  - `split(maxsplit=1)`;
  - `startswith` and `in`;
  - `lower()`.
- `listing.dfy`, module `Listing`: the two parsers of `get_node_processes`.
  One reads `ps -eo pid,command` output on Unix. The other reads
  `tasklist /FO CSV /NH` output on Windows. The standard output of the
  listing command is an input.
- `termination.dfy`, module `Termination`: `terminate_process` as a pure
  function. It returns the trace of what the function does and the boolean
  it returns. The environment enters as three parameters:
  - the answers of the existence check (`process_exists`) are an oracle;
  - whether `int(pid)` converted is an `Option`;
  - an exception raised by a signalling step is a `Fault`.
- `menu.dfy`, module `Menu`: the logic of `main`:
  - the 60-character display truncation and the table row;
  - the menu choice;
  - the comma-separated pid list;
  - the membership filter against the listed processes;
  - the success counts of both options.

  `terminate_process` enters here as an oracle of verdicts.

Pids are the text the listing printed. They are compared as strings, and
converted to integers only inside `terminate_process`. A termination yields
the boolean that `terminate_process` returns.

## Model

| member | source | states |
|---|---|---|
| Seqs.FilterMapSelects | stop_node_servers.py:30-38 | The records are the images of exactly the accepted lines: the k-th record comes from the k-th accepted line, in ascending line order, and a line yields a record if and only if it is accepted. |
| Seqs.FilterMapMember | stop_node_servers.py:30-38 | Every appended record is the image of some input line. |
| Seqs.FilterMapComplete | stop_node_servers.py:30-38 | Every accepted line contributes its record. |
| PyStr.StripWith | stop_node_servers.py:33 | `strip` returns a piece of the input with no dropped character at either end, and everything cut away around it is dropped characters. |
| PyStr.StripUnique | stop_node_servers.py:33 | Those two facts determine the result of `strip`. |
| PyStr.StripIdempotent | stop_node_servers.py:33 | Stripping twice is stripping once. |
| PyStr.Find | stop_node_servers.py:19 | It finds the leftmost occurrence of the separator, or reports that there is none. |
| PyStr.Split | stop_node_servers.py:17 | `split(sep)` cuts at leftmost occurrences: no piece contains the separator, and joining the pieces with it gives the input back. |
| PyStr.SplitJoin | stop_node_servers.py:19 | `split` inverts `join` on pieces that meet the leftmost-cut condition. |
| PyStr.SplitOnce | stop_node_servers.py:33 | `split(maxsplit=1)` gives no fields exactly for blank text. The first field is a whitespace-free word. A second field starts with non-whitespace. |
| PyStr.SplitOnceParts | stop_node_servers.py:33-36 | On stripped text, two fields mean the text is the first field, a whitespace gap, then the second field. |
| PyStr.SplitOnceOfParts | stop_node_servers.py:33-36 | Conversely, word + whitespace gap + non-blank rest splits into that word and that rest. |
| Listing.OutputLines | stop_node_servers.py:31 | There is at least one line, no line holds a newline, and the lines joined with newlines are the stripped output. |
| Listing.PsRecordIff | stop_node_servers.py:32-38 | A `ps` line yields `(pid, command)` if and only if the stripped line is the pid word, a whitespace gap, then the command, and the command passes the node filter. |
| Listing.PsRecordFields | stop_node_servers.py:33-37 | A kept record has a one-word pid and a non-empty command with no whitespace at either end that passes the filter. |
| Listing.ParsePs | stop_node_servers.py:30-39 | There are never more records than output lines. |
| Listing.ParsePsSelects | stop_node_servers.py:30-38 | The Unix records are those of the accepted lines, in line order, and a line contributes exactly when it yields a record. |
| Listing.ParsePsRecords | stop_node_servers.py:31-38 | Each Unix record comes from one output line and has the shape above. |
| Listing.NodeCommandSimplified | stop_node_servers.py:37 | The filter keeps a command if and only if it starts with "nodejs " or contains "node ": the "node " prefix test is subsumed. |
| Listing.TasklistRecord | stop_node_servers.py:18-24 | A record comes only from a non-empty line. Its command is "node.exe", and its pid has no quote at either end and holds no `","`. |
| Listing.TasklistNoSeparator | stop_node_servers.py:18-20 | A line holding no `","`, such as tasklist's "INFO: No tasks are running" line, yields no record. |
| Listing.ParseTasklist | stop_node_servers.py:16-25 | There are never more records than output lines. |
| Listing.ParseTasklistSelects | stop_node_servers.py:16-24 | The Windows records are those of the accepted lines, in line order, and a line contributes exactly when it yields a record. |
| Listing.ParseTasklistRecords | stop_node_servers.py:17-24 | Each Windows record comes from one output line and has command "node.exe". |
| Listing.TasklistRoundTrip | stop_node_servers.py:19-24 | For a CSV row of quoted, quote-free fields, the record is the second field as pid if and only if the lower-cased first field is "node.exe". Otherwise there is no record. |
| Listing.NodeProcesses | stop_node_servers.py:11-42 | A failed listing gives no processes. There are never more processes than lines. On Windows every command is "node.exe". |
| Termination.Terminate | stop_node_servers.py:44-84 | Every path ends with an existence check, and the result is that check's negation. |
| Termination.AlreadyGone | stop_node_servers.py:49-51 | If the first check finds the process gone, the trace is that check alone and the result is True: nothing is sent and nothing is waited for. |
| Termination.Unconverted | stop_node_servers.py:79-84 | A pid that does not convert sends and waits for nothing. On Unix it is reported dead, because os.kill rejects a string and the check answers absent. On Windows the result is the negation of the check. |
| Termination.EscalationOrder | stop_node_servers.py:53-72 | The forceful request comes only after the graceful one and right after a check that found the process. Each request is sent at most once. |
| Termination.SendPositions | stop_node_servers.py:53-72 | The graceful request can only be the second event and the forceful one only the fifth. |
| Termination.ForcefulIff | stop_node_servers.py:63-72 | The forceful request is sent if and only if all of these hold: the pid converted, the process was there at the first check, the graceful step did not raise, and the process was still there after the grace wait. |
| Termination.GoneAfterGrace | stop_node_servers.py:60-65 | When the graceful step does not raise, a process gone after the grace period gives the trace check, graceful request, wait 2, check, and the result True, whatever a forceful step would have done. |
| Termination.NormalRunIsPrefix | stop_node_servers.py:49-78 | Without exceptions, the trace is the full escalation cut at the first check that finds the process gone, with 1, 4 or 7 events. The result is True unless the process survived every phase. |
| Termination.ChecksInOrder | stop_node_servers.py:46-84 | The existence check runs one to three times and consumes the oracle's answers in order. The exception is an unconverted pid on Unix, which reads "absent". |
| Termination.WaitBound | stop_node_servers.py:61-75 | The protocol waits at most 2 + 1 seconds. |
| Termination.Tally | stop_node_servers.py:44-84 | It gives each path's check answers and total wait. |
| Menu.Shorten | stop_node_servers.py:115 | A command of at most 60 characters is shown unchanged. A longer one is shown as its first 60 characters followed by "...", 63 characters in all. |
| Menu.ShortenBounds | stop_node_servers.py:115 | A shown command is at most 63 characters and starts like the command. Shortening is idempotent. |
| Menu.PadRight | stop_node_servers.py:115 | `{:<8}` keeps the text, pads it with spaces to width 8 and never cuts it. |
| Menu.RowReadsBack | stop_node_servers.py:115 | For a one-word pid and a non-empty command that starts with non-whitespace, splitting a table row once on whitespace gives the pid and the shown command back. |
| Menu.ParseChoice | stop_node_servers.py:123-159 | Option 1, 2 or 3 is chosen if and only if the stripped answer is "1", "2" or "3". |
| Menu.SelectPids | stop_node_servers.py:136-137 | Every selected pid is non-empty, has no surrounding whitespace and contains no comma. There are never more selected pids than comma-separated pieces. |
| Menu.SelectPidsOrder | stop_node_servers.py:137 | The selected pids are the stripped non-blank pieces, in input order, and a piece is selected if and only if it is not blank. |
| Menu.SelectJoin | stop_node_servers.py:136-137 | Pid tokens joined with commas are selected back unchanged. |
| Menu.EmptySelection | stop_node_servers.py:137-141 | An empty answer selects no pid. |
| Menu.TargetsListed | stop_node_servers.py:145-150 | A selected pid reaches `terminate_process` if and only if it is listed. Unlisted selections are reported missing. Together the two account for every selection. |
| Menu.SuccessesCounts | stop_node_servers.py:128-131 | The success count is the number of calls that returned True. |
| Menu.TerminateEvery | stop_node_servers.py:128-132 | Option 1 calls `terminate_process` once per listed process, in order. Its count is the number of True verdicts, at most the number of processes. |
| Menu.TerminateChosen | stop_node_servers.py:143-151 | Option 2 calls `terminate_process` on exactly the listed selections, in order, and reports the others missing. Its count is at most the number of calls, which is at most the number of selections. |
| Menu.RunMenu | stop_node_servers.py:104-159 | There is no menu without processes. Option 1 calls `terminate_process` on every listed pid, in order, and reports the number of True verdicts out of the number of processes. A non-empty option 2 calls it on exactly the listed selections, in order, and reports the True verdicts out of the number of selections. An empty pid list gives "No valid PIDs entered." and terminates nothing. Whenever no count is reported, nothing is terminated; this covers cancel and invalid choices too. Only listed pids are ever terminated. |

## Left out

- Running `ps`, `tasklist`, `taskkill` and `os.kill` is left out, and so is reading `platform.system()`. The listing's standard output, the platform and the existence answers are inputs. So are the verdicts of `terminate_process` as seen by `main`.
- The `grep -E 'node |nodejs ' | grep -v grep` stage of the Unix listing is outside the model. The parser is modelled on whatever text that pipeline prints.
- Termination.Terminate: `process_exists` is an oracle (`alive(k)` answers the k-th call). This covers the Windows test `str(pid) in stdout` and the Unix `os.kill(pid, 0)`, together with its PermissionError. Their outcome depends on the operating system. Only the Unix rejection of a non-integer pid is modelled, because that outcome is fixed whatever the system state.
- Termination.Terminate: `int(pid)` is not modelled character by character. Whether it converts is the `Option` parameter, because the model never needs the integer's value.
- Termination.Terminate: time is not modelled. `time.sleep(2)` and `time.sleep(1)` become `Wait` events.
- Listing.NodeProcesses: any exception while listing is modelled as a missing standard output, giving the empty list. The error message is not modelled.
- PyStr.Lower: only ASCII letters are folded, where Python's `lower()` folds all of Unicode. The result is only compared with "node.exe", so the verdict is unchanged. Only two characters outside ASCII lower to text containing an ASCII letter. U+0130 lowers to "i" followed by a combining dot, and the Kelvin sign U+212A lowers to "k". Neither of these occurs in "node.exe".
- Console output is left out as text: the banner, the table header, the separator line and the wording of the messages. The model does cover which message `main` ends with (`Report`), which pids are reported as not found (`Missing`), the layout of a table row, and the final counts.
- The `KeyboardInterrupt` handler is left out.
