/** The files the alias manager touches, and what the operating system
    answers when it touches them. A file is an object with a flag for its
    existence and its whole text; the outcome of every system call is
    given by the caller in an `Env`. */
module Files {
  import opened GoStrings

  /** A file on disk: whether it is present, and its contents. */
  class TextFile {
    var present: bool
    var text: string

    /** A missing file reads as empty. */
    ghost predicate Valid()
      reads this
    {
      !present ==> text == ""
    }

    constructor (present: bool, text: string)
      requires present || text == ""
      ensures Valid()
      ensures this.present == present && this.text == text
    {
      this.present := present;
      this.text := text;
    }
  }

  /** The result of os.OpenFile: a handle, a not-exist error, or any other
      error (permissions, a full disk, ...). */
  datatype OpenOutcome = Opened | NotExist | OtherError

  /** What the operating system answers during one operation: whether
      os.MkdirAll, os.Create, reading the file, File.Truncate and
      File.WriteString succeed, what os.OpenFile returns, and the output
      of `ps ax | grep '/bin/zsh \| -zsh'`. */
  datatype Env = Env(
    mkdirOk: bool,
    open: OpenOutcome,
    createOk: bool,
    readOk: bool,
    truncateOk: bool,
    writeOk: bool,
    psOutput: string)

  /** Whether the process goes on or has called os.Exit (or panicked). */
  datatype Status = Running | Exited(code: int)

  /** The contains-then-append rule: the block is added at the end unless
      the text already holds it. */
  function EnsureContains(text: string, block: string): (r: string)
    ensures Contains(r, block)
    ensures text <= r
    ensures Contains(text, block) ==> r == text
    ensures !Contains(text, block) ==> r == text + block
  {
    ContainsSuffix(text, block);
    if Contains(text, block) then text else text + block
  }

  /** Adding the block a second time changes nothing. */
  lemma EnsureContainsIdempotent(text: string, block: string)
    ensures EnsureContains(EnsureContains(text, block), block) == EnsureContains(text, block)
  {
  }

  /** An empty file holds no non-empty block. */
  lemma EmptyLacksBlock(block: string)
    requires block != ""
    ensures !Contains("", block)
  {
  }

  /** The text after one contains-then-append step on a file whose text
      is `text`: the check sees the whole text when the read succeeds and
      nothing (Go's nil slice) when it fails, and the block is added only
      when the check does not find it and the write succeeds. */
  function AfterAppend(text: string, block: string, readOk: bool, writeOk: bool): (r: string)
    ensures text <= r
    ensures r == text || r == text + block
    ensures !writeOk ==> r == text
    ensures readOk && writeOk ==> r == EnsureContains(text, block)
    ensures !readOk && writeOk && block != "" ==> r == text + block
  {
    var seen := if readOk then text else "";
    if writeOk && !Contains(seen, block) then text + block else text
  }

  /** Once the block is in the file, running the step again with a
      successful read leaves the file as it is, whether the write would
      succeed or not: the step is idempotent. */
  lemma AppendIdempotent(text: string, block: string, writeOk: bool, writeOk': bool)
    ensures var once := AfterAppend(text, block, true, writeOk);
            Contains(once, block) ==> AfterAppend(once, block, true, writeOk') == once
  {
  }

  /** A failed read hides the block: every run with a working write adds
      one more copy, so the file grows by the block each time. */
  lemma {:induction false} UnreadableFileGrows(text: string, block: string, n: nat)
    requires block != ""
    ensures |Repeat(text, block, n)| == |text| + n * |block|
    ensures Contains(Repeat(text, block, n), block) <==> n > 0 || Contains(text, block)
    decreases n
  {
    if n > 0 {
      UnreadableFileGrows(text, block, n - 1);
      ContainsSuffix(Repeat(text, block, n - 1), block);
    }
  }

  /** `n` runs of the step with a failing read and a working write. */
  function Repeat(text: string, block: string, n: nat): string
    decreases n
  {
    if n == 0 then text else AfterAppend(Repeat(text, block, n - 1), block, false, true)
  }

  /** Reads the file and, when it does not contain `block`, writes `block`
      through the append-mode handle. Without a handle nothing is written:
      WriteString on a nil *os.File fails. */
  method AppendUnlessContained(f: TextFile, block: string, haveHandle: bool, readOk: bool, writeOk: bool)
    requires f.Valid()
    requires haveHandle ==> f.present
    modifies f
    ensures f.Valid() && f.present == old(f.present)
    ensures f.text == if haveHandle then AfterAppend(old(f.text), block, readOk, writeOk) else old(f.text)
  {
    var contents := if readOk then f.text else "";
    if !Contains(contents, block) {
      if haveHandle && writeOk {
        f.text := f.text + block;
      }
    }
  }
}
