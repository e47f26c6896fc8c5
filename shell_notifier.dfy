/** The string part of updateAllRunningShells: from the output of
    `ps ax | grep '/bin/zsh \| -zsh'` to the process ids the alias server
    sends SIGUSR1 to, so that every running zsh re-sources the alias file.
    Starting the processes and sending the signals are not modelled. */
module ShellNotifier {
  import opened GoStrings

  /** The lines of the grep output, as the loop ranges over them: the
      whole output trimmed, then split at every newline. */
  function ShellLines(psOutput: string): (r: seq<string>)
    ensures |r| >= 1
    ensures forall i :: 0 <= i < |r| ==> '\n' !in r[i]
    ensures TrimSpace(psOutput) == [] ==> r == [[]]
  {
    Split(TrimSpace(psOutput), '\n')
  }

  /** A line of the grep output that shows the grep process itself. */
  predicate IsGrepLine(line: string)
  {
    Contains(line, "grep")
  }

  /** The first space-separated field of a trimmed line: the pid column
      of `ps ax`. */
  function Pid(line: string): string
  {
    Split(TrimSpace(line), ' ')[0]
  }

  /** The pid is the longest space-free prefix of the trimmed line, and it
      is empty only when the line is blank. */
  lemma PidIsFirstField(line: string)
    ensures var t := TrimSpace(line);
            && Pid(line) <= t
            && ' ' !in Pid(line)
            && (|Pid(line)| < |t| ==> t[|Pid(line)|] == ' ')
            && (Pid(line) == [] <==> t == [])
  {
    var t := TrimSpace(line);
    var i := FirstIndex(t, ' ');
    assert Pid(line) == t[..i];
    assert t != [] ==> !IsSpace(t[0]);
  }

  /** The pids collected from `lines`, in order: one per line that does
      not mention grep. */
  function Pids(lines: seq<string>): (r: seq<string>)
    decreases |lines|
  {
    if lines == [] then []
    else
      var last := lines[|lines| - 1];
      var before := Pids(lines[..|lines| - 1]);
      if IsGrepLine(last) then before else before + [Pid(last)]
  }

  /** updateAllRunningShells, up to the signals: the grep output cut
      into lines, then the pid of every line that is not the grep itself. */
  method UpdateAllRunningShells(psOutput: string) returns (pids: seq<string>)
    ensures pids == Pids(ShellLines(psOutput))
  {
    var lines := ShellLines(psOutput);
    pids := CollectPids(lines);
  }

  /** The loop of updateAllRunningShells: every line that does not
      mention grep gives the first field of its trimmed text. */
  method CollectPids(lines: seq<string>) returns (pids: seq<string>)
    ensures pids == Pids(lines)
  {
    pids := [];
    var i := 0;
    while i < |lines|
      invariant 0 <= i <= |lines|
      invariant pids == Pids(lines[..i])
    {
      var line := lines[i];
      ghost var before := pids;
      if !IsGrepLine(line) {
        pids := pids + [Pid(line)];
      }
      PidsStep(lines, i, before, pids);
      i := i + 1;
    }
    TakeAll(lines);
  }

  /** One more line adds its pid at the end, unless it is a grep line. */
  lemma PidsSnoc(init: seq<string>, line: string)
    ensures Pids(init + [line]) == Pids(init) + (if IsGrepLine(line) then [] else [Pid(line)])
  {
    var s := init + [line];
    assert s[..|s| - 1] == init;
    assert s[|s| - 1] == line;
  }

  /** The loop's step: the prefix one line longer adds that line's pid. */
  lemma PidsStep(lines: seq<string>, i: nat, before: seq<string>, after: seq<string>)
    requires i < |lines|
    requires before == Pids(lines[..i])
    requires after == if IsGrepLine(lines[i]) then before else before + [Pid(lines[i])]
    ensures after == Pids(lines[..i + 1])
  {
    TakeOneMore(lines, i);
    PidsSnoc(lines[..i], lines[i]);
  }

  /** Collecting from two runs of lines is collecting from each in turn:
      together with the one-line case this says that the pids are the
      first fields of the non-grep lines, in input order. */
  lemma {:induction false} PidsAppend(a: seq<string>, b: seq<string>)
    ensures Pids(a + b) == Pids(a) + Pids(b)
    decreases |b|
  {
    if b == [] {
      assert a + b == a;
    } else {
      var b', last := b[..|b| - 1], b[|b| - 1];
      DropLast(b);
      AppendSnoc(a, b', last);
      var x := if IsGrepLine(last) then [] else [Pid(last)];
      calc {
        Pids(a + b);
        Pids((a + b') + [last]);
        { PidsSnoc(a + b', last); }
        Pids(a + b') + x;
        { PidsAppend(a, b'); }
        (Pids(a) + Pids(b')) + x;
        Pids(a) + (Pids(b') + x);
        { PidsSnoc(b', last); }
        Pids(a) + Pids(b);
      }
    }
  }

  /** A single line yields its pid, unless it is a grep line. */
  lemma PidsSingle(line: string)
    ensures IsGrepLine(line) ==> Pids([line]) == []
    ensures !IsGrepLine(line) ==> Pids([line]) == [Pid(line)]
  {
    assert [line][..0] == [];
  }

  /** There are never more pids than lines. */
  lemma {:induction false} PidsAtMostLines(lines: seq<string>)
    ensures |Pids(lines)| <= |lines|
    decreases |lines|
  {
    if lines != [] {
      PidsAtMostLines(lines[..|lines| - 1]);
    }
  }

  /** When no line mentions grep, there is one pid per line. */
  lemma {:induction false} PidsNoGrep(lines: seq<string>)
    requires forall i :: 0 <= i < |lines| ==> !IsGrepLine(lines[i])
    ensures |Pids(lines)| == |lines|
    decreases |lines|
  {
    if lines != [] {
      var init := lines[..|lines| - 1];
      assert forall i :: 0 <= i < |init| ==> init[i] == lines[i];
      PidsNoGrep(init);
    }
  }

  /** Lines that all mention grep yield no pid at all. */
  lemma {:induction false} PidsAllGrep(lines: seq<string>)
    requires forall i :: 0 <= i < |lines| ==> IsGrepLine(lines[i])
    ensures Pids(lines) == []
    decreases |lines|
  {
    if lines != [] {
      PidsAllGrep(lines[..|lines| - 1]);
    }
  }

  /** Every pid is a single field: no pid holds a space. */
  lemma {:induction false} PidsHaveNoSpace(lines: seq<string>)
    ensures forall i :: 0 <= i < |Pids(lines)| ==> ' ' !in Pids(lines)[i]
    decreases |lines|
  {
    if lines != [] {
      var init, last := lines[..|lines| - 1], lines[|lines| - 1];
      DropLast(lines);
      PidsSnoc(init, last);
      PidsHaveNoSpace(init);
      PidIsFirstField(last);
    }
  }

  /** Output that is blank (no shell found, not even the grep line) still
      gives one line, the empty one, and so one empty pid: `kill -USR1 ""`
      is started and fails. */
  lemma BlankOutputGivesEmptyPid(psOutput: string)
    requires TrimSpace(psOutput) == []
    ensures Pids(ShellLines(psOutput)) == [[]]
  {
    var lines := ShellLines(psOutput);
    assert lines == [[]];
    assert !IsGrepLine([]);
    PidsSingle([]);
  }
}
