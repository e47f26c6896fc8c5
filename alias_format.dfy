/** The text format of the alias file: the line writeAliases prints for
    each alias, the line decoder of checkAliases, the line reader in front
    of it, and what reading a whole file does to the alias map. */
module AliasFormat {
  import opened GoStrings

  /** The line writeAliases prints for one alias: `alias k='v'` and a newline. */
  function FormatLine(key: string, value: string): string
  {
    "alias " + key + "='" + value + "'\n"
  }

  /** What checkAliases does with one line: nothing, one map entry, or a
      panic because `cmdList[1]` (or `line[6:]`) is out of range. */
  datatype LineResult = Skip | Entry(key: string, value: string) | OutOfRange

  /** A line long enough whose first five bytes are `alias`. The sixth
      byte is dropped unread, so `aliases=x` counts too. */
  predicate IsDeclaration(line: string)
  {
    |line| >= 5 && line[..5] == "alias"
  }

  /** The quoting undone after the first six bytes are dropped: every
      newline removed, every backslash-double-quote pair turned into a
      double quote, then every single quote removed. */
  function Unquote(cmd: string): string
  {
    ReplaceAll(ReplaceAll(ReplaceAll(cmd, "\n", ""), "\\\"", "\""), "'", "")
  }

  /** The decoding of one line read from the alias file. */
  function DecodeLine(line: string): (r: LineResult)
    ensures r.Skip? <==> !IsDeclaration(line)
    ensures r.Entry? ==> '=' !in r.key && '=' !in r.value
  {
    if !IsDeclaration(line) then Skip
    else if |line| < 6 then OutOfRange
    else
      var pieces := Split(Unquote(line[6..]), '=');
      if |pieces| < 2 then OutOfRange else Entry(pieces[0], pieces[1])
  }

  /** Decoded keys and values hold no newline and no single quote. */
  lemma DecodedHasNoQuotes(line: string)
    requires DecodeLine(line).Entry?
    ensures '\n' !in DecodeLine(line).key && '\n' !in DecodeLine(line).value
    ensures '\'' !in DecodeLine(line).key && '\'' !in DecodeLine(line).value
  {
    var cmd := line[6..];
    var a := ReplaceAll(cmd, "\n", "");
    var b := ReplaceAll(a, "\\\"", "\"");
    var c := ReplaceAll(b, "'", "");
    ReplaceCharRemoves(cmd, '\n', "");
    ReplaceAllKeeps(a, "\\\"", "\"", '\n');
    ReplaceAllKeeps(b, "'", "", '\n');
    ReplaceCharRemoves(b, '\'', "");
    var pieces := Split(c, '=');
    SplitJoin(c, '=');
    JoinPieceChars(pieces, '=', 0, '\n');
    JoinPieceChars(pieces, '=', 0, '\'');
    JoinPieceChars(pieces, '=', 1, '\n');
    JoinPieceChars(pieces, '=', 1, '\'');
  }

  lemma {:induction false} JoinPieceChars(pieces: seq<string>, sep: char, i: nat, x: char)
    requires |pieces| >= 1 && i < |pieces|
    requires x !in Join(pieces, sep)
    ensures x !in pieces[i]
    decreases |pieces|
  {
    if |pieces| > 1 {
      var rest := Join(pieces[1..], sep);
      assert Join(pieces, sep) == pieces[0] + ([sep] + rest);
      if i > 0 {
        assert x !in rest;
        JoinPieceChars(pieces[1..], sep, i - 1, x);
      }
    }
  }

  /** The index-out-of-range panic happens exactly on a declaration line
      whose text after the sixth byte holds no `=` (or that has no sixth
      byte at all). */
  lemma DecodePanicsIff(line: string)
    ensures DecodeLine(line) == OutOfRange
        <==> IsDeclaration(line) && (|line| < 6 || '=' !in line[6..])
  {
    if IsDeclaration(line) && |line| >= 6 {
      var cmd := line[6..];
      var a := ReplaceAll(cmd, "\n", "");
      var b := ReplaceAll(a, "\\\"", "\"");
      ReplaceAllKeeps(cmd, "\n", "", '=');
      ReplaceAllKeeps(a, "\\\"", "\"", '=');
      ReplaceAllKeeps(b, "'", "", '=');
    }
  }

  /** A key or value the alias file carries unchanged: no `=`, no single
      quote, no newline and no backslash-double-quote pair. */
  predicate Clean(s: string)
  {
    '=' !in s && '\'' !in s && '\n' !in s && !Contains(s, "\\\"")
  }

  /** Text that Unquote leaves as it is. */
  predicate Unquoted(s: string)
  {
    '\'' !in s && '\n' !in s && !Contains(s, "\\\"")
  }

  lemma UnquoteKeeps(s: string)
    requires Unquoted(s)
    ensures Unquote(s) == s
  {
    ContainsChar(s, '\n');
    ReplaceAllAbsent(s, "\n", "");
    ContainsChar(s, '\'');
    ReplaceAllAbsent(s, "\\\"", "\"");
    ReplaceAllAbsent(s, "'", "");
  }

  /** Removing newlines from newline-free text and one final newline. */
  lemma DropFinalNewline(body: string)
    requires '\n' !in body
    ensures ReplaceAll(body + "\n", "\n", "") == body
  {
    ReplaceCharConcat(body, "\n", '\n', "");
    ContainsChar(body, '\n');
    ReplaceAllAbsent(body, "\n", "");
    assert ReplaceAll("\n", "\n", "") == "";
  }

  /** The text between the quotes and around them holds no
      backslash-double-quote pair when neither key nor value does. */
  lemma FormattedNoPair(key: string, value: string)
    requires !Contains(key, "\\\"") && !Contains(value, "\\\"")
    ensures !Contains(key + "='" + value + "'", "\\\"")
  {
    var tail := value + "'";
    NoPairConcat(value, "'", "\\\"");
    assert !Contains("='", "\\\"");
    NoPairConcat("='", tail, "\\\"");
    NoPairConcat(key, "='" + tail, "\\\"");
    assert key + ("='" + tail) == key + "='" + value + "'";
  }

  /** The single quotes around the value are removed. */
  lemma DropValueQuotes(key: string, value: string)
    requires '\'' !in key && '\'' !in value
    ensures ReplaceAll(key + "='" + value + "'", "'", "") == key + "=" + value
  {
    var t3 := "=" + ("'" + (value + "'"));
    assert key + "='" + value + "'" == key + t3;
    assert key + "=" + value == key + ("=" + value);
    DropQuotesAround(key, value, t3);
  }

  lemma DropQuotesAround(key: string, value: string, t3: string)
    requires '\'' !in key && '\'' !in value
    requires t3 == "=" + ("'" + (value + "'"))
    ensures ReplaceAll(key + t3, "'", "") == key + ("=" + value)
  {
    var q := "'";
    var t1 := value + q;
    var t2 := q + t1;
    assert ReplaceAll(q, q, "") == "";
    assert ReplaceAll(t1, q, "") == value by {
      ContainsChar(value, '\'');
      ReplaceAllAbsent(value, q, "");
      ReplaceCharConcat(value, q, '\'', "");
    }
    assert ReplaceAll(t2, q, "") == value by {
      ReplaceCharConcat(q, t1, '\'', "");
    }
    assert ReplaceAll(t3, q, "") == "=" + value by {
      ReplaceCharConcat("=", t2, '\'', "");
      assert ReplaceAll("=", "'", "") == "=";
    }
    ContainsChar(key, '\'');
    ReplaceAllAbsent(key, q, "");
    ReplaceCharConcat(key, t3, '\'', "");
  }

  /** What checkAliases makes of the text after `alias ` on a line that
      writeAliases printed. */
  lemma UnquoteFormatted(key: string, value: string)
    requires Unquoted(key) && Unquoted(value)
    ensures Unquote(key + "='" + value + "'\n") == key + "=" + value
  {
    var body := key + "='" + value + "'";
    assert body + "\n" == key + "='" + value + "'\n";
    DropFinalNewline(body);
    FormattedNoPair(key, value);
    ReplaceAllAbsent(body, "\\\"", "\"");
    DropValueQuotes(key, value);
  }

  /** One line round-trips: a clean key and value written by writeAliases
      are read back unchanged. */
  lemma DecodeFormatLine(key: string, value: string)
    requires Clean(key) && Clean(value)
    ensures DecodeLine(FormatLine(key, value)) == Entry(key, value)
  {
    DecodeFormatted(key, value);
  }

  /** The converse of DecodeFormatLine: a line that round-trips was written
      for a clean key and value. A `=` is cut off, a single quote or a
      newline is removed, and a backslash-double-quote pair loses its
      backslash, so each of them changes what is read back. */
  lemma DecodeFormatLineOnlyIf(key: string, value: string)
    requires DecodeLine(FormatLine(key, value)) == Entry(key, value)
    ensures Clean(key) && Clean(value)
  {
    DecodedHasNoQuotes(FormatLine(key, value));
    DecodePairs(key, value);
    ReplaceShorter(key, "\\\"", "\"");
    ReplaceShorter(value, "\\\"", "\"");
  }

  /** A written line whose key and value hold no single quote, `=` or
      newline is read back with every backslash-double-quote pair turned
      into a double quote. */
  lemma DecodePairs(key: string, value: string)
    requires '\'' !in key && '\'' !in value && '\n' !in key && '\n' !in value
    requires '=' !in key && '=' !in value
    ensures DecodeLine(FormatLine(key, value))
              == Entry(ReplaceAll(key, "\\\"", "\""), ReplaceAll(value, "\\\"", "\""))
  {
    var k, v := ReplaceAll(key, "\\\"", "\""), ReplaceAll(value, "\\\"", "\"");
    var cmd := key + "='" + value + "'\n";
    UnquotePairs(key, value, k, v);
    assert FormatLine(key, value) == "alias " + cmd;
    DecodeKeyValue(k, v, cmd);
    assert Split(v, '=')[0] == v;
  }

  /** `alias k='a\"b'` gives `k` the value `a"b`: the backslash is lost. */
  lemma DecodePairExample()
    ensures DecodeLine(FormatLine("k", "a\\\"b")) == Entry("k", "a\"b")
  {
    PairExampleReplaced();
    DecodePairs("k", "a\\\"b");
  }

  lemma PairExampleReplaced()
    ensures ReplaceAll("a\\\"b", "\\\"", "\"") == "a\"b"
    ensures ReplaceAll("k", "\\\"", "\"") == "k"
  {
    assert ReplaceAll("b", "\\\"", "\"") == "b";
    assert ReplaceAll("\\\"b", "\\\"", "\"") == "\"b";
  }

  /** Unquoting a written line whose key and value hold no single quote,
      `=` or newline only turns their backslash-double-quote pairs into
      double quotes. */
  lemma UnquotePairs(key: string, value: string, k: string, v: string)
    requires '\'' !in key && '\'' !in value && '\n' !in key && '\n' !in value
    requires '=' !in key && '=' !in value
    requires k == ReplaceAll(key, "\\\"", "\"") && v == ReplaceAll(value, "\\\"", "\"")
    ensures Unquote(key + "='" + value + "'\n") == k + [('=')] + v
    ensures '=' !in k && '=' !in v
  {
    var body := key + "='" + value + "'";
    assert body + "\n" == key + "='" + value + "'\n";
    DropFinalNewline(body);
    PairsFormatted(key, value);
    ReplaceAllKeeps(key, "\\\"", "\"", '\'');
    ReplaceAllKeeps(value, "\\\"", "\"", '\'');
    ReplaceAllKeeps(key, "\\\"", "\"", '=');
    ReplaceAllKeeps(value, "\\\"", "\"", '=');
    DropValueQuotes(k, v);
    assert k + "=" + v == k + [('=')] + v;
  }

  /** No backslash-double-quote pair straddles the quoting writeAliases
      puts around the value. */
  lemma PairsFormatted(key: string, value: string)
    ensures var pair, dq := "\\\"", "\"";
            ReplaceAll(key + "='" + value + "'", pair, dq)
              == ReplaceAll(key, pair, dq) + "='" + ReplaceAll(value, pair, dq) + "'"
  {
    var pair, dq, q := "\\\"", "\"", "'";
    ReplacePairConcat(value, q, pair, dq);
    assert ReplaceAll(q, pair, dq) == q;
    ReplacePairConcat("='", value + q, pair, dq);
    assert ReplaceAll("='", pair, dq) == "='";
    ReplacePairConcat(key, "='" + (value + q), pair, dq);
    assert key + "='" + value + "'" == key + ("='" + (value + q));
  }

  /** Any line writeAliases prints for a key free of `=` and for text
      that needs no unquoting is read back with the value cut at its
      first `=`. */
  lemma DecodeFormatted(key: string, value: string)
    requires Clean(key) && Unquoted(value)
    ensures DecodeLine(FormatLine(key, value)) == Entry(key, Split(value, '=')[0])
  {
    var cmd := key + "='" + value + "'\n";
    assert FormatLine(key, value) == "alias " + cmd;
    UnquoteFormatted(key, value);
    assert key + "=" + value == key + [('=')] + value;
    DecodeKeyValue(key, value, cmd);
  }

  /** The value is cut at its first `=`: everything after it is lost. */
  lemma DecodeCutsAtEquals(key: string, value: string, rest: string)
    requires Clean(key) && Clean(value) && Unquoted(rest)
    ensures DecodeLine(FormatLine(key, value + "=" + rest)) == Entry(key, value)
  {
    var v := value + "=" + rest;
    assert Unquoted(v) by {
      NoPairConcat(value, "=", "\\\"");
      assert !Contains("=", "\\\"");
      NoPairConcat(value + "=", rest, "\\\"");
    }
    DecodeFormatted(key, v);
    assert v == value + [('=')] + rest;
    SplitAfter(value, '=', rest);
  }

  /** `alias k='a=b'` gives `k` the value `a`. */
  lemma DecodeCutExample()
    ensures DecodeLine("alias k='a=b'\n") == Entry("k", "a")
  {
    assert FormatLine("k", "a" + "=" + "b") == "alias k='a=b'\n";
    DecodeCutsAtEquals("k", "a", "b");
  }

  /** A value written in double quotes, as in the default block, keeps its
      double quotes: only single quotes and backslash-escaped double quotes
      are rewritten. */
  lemma DecodeKeepsDoubleQuotes(key: string, value: string)
    requires Clean(key) && Clean(value) && '\\' !in value
    ensures DecodeLine("alias " + key + "=\"" + value + "\"\n") == Entry(key, "\"" + value + "\"")
  {
    var v := "\"" + value + "\"";
    var cmd := key + [('=')] + v + "\n";
    assert "alias " + key + "=\"" + value + "\"\n" == "alias " + cmd;
    UnquoteDoubleQuoted(key, v);
    DecodeKeyValue(key, v, cmd);
  }

  /** A value written bare, as in the server package's default block, is
      read back as it is. */
  lemma DecodeBareValue(key: string, value: string)
    requires Clean(key) && '\\' !in value && '\'' !in value && '\n' !in value && '=' !in value
    ensures DecodeLine("alias " + key + "=" + value + "\n") == Entry(key, value)
  {
    var cmd := key + [('=')] + value + "\n";
    assert "alias " + key + "=" + value + "\n" == "alias " + cmd;
    UnquoteDoubleQuoted(key, value);
    DecodeKeyValue(key, value, cmd);
  }

  /** A declaration whose unquoted text is `key=rest` gives `key` the part
      of `rest` before its first `=`. */
  lemma DecodeKeyValue(key: string, rest: string, cmd: string)
    requires '=' !in key
    requires Unquote(cmd) == key + [('=')] + rest
    ensures DecodeLine("alias " + cmd) == Entry(key, Split(rest, '=')[0])
  {
    var line := "alias " + cmd;
    assert line[..5] == "alias";
    assert line[6..] == cmd;
    SplitAfter(key, '=', rest);
  }

  lemma UnquoteDoubleQuoted(key: string, v: string)
    requires Unquoted(key) && '\\' !in v && '\'' !in v && '\n' !in v
    ensures Unquote(key + [('=')] + v + "\n") == key + [('=')] + v
  {
    var body := key + [('=')] + v;
    BodyUnquoted(key, v);
    UnquoteLine(body);
  }

  /** `key=v` needs no unquoting when neither part does and `v` has no
      backslash. */
  lemma BodyUnquoted(key: string, v: string)
    requires Unquoted(key) && '\\' !in v && '\'' !in v && '\n' !in v
    ensures Unquoted(key + [('=')] + v)
  {
    NoBackslashNoPair(v);
    assert !Contains("=", "\\\"");
    NoPairConcat("=", v, "\\\"");
    NoPairConcat(key, "=" + v, "\\\"");
    assert key + ("=" + v) == key + [('=')] + v;
  }

  /** A line whose text needs no unquoting decodes to that text. */
  lemma UnquoteLine(body: string)
    requires Unquoted(body)
    ensures Unquote(body + "\n") == body
  {
    DropFinalNewline(body);
    ReplaceAllAbsent(body, "\\\"", "\"");
    ContainsChar(body, '\'');
    ReplaceAllAbsent(body, "'", "");
  }

  lemma {:induction false} NoBackslashNoPair(s: string)
    requires '\\' !in s
    ensures !Contains(s, "\\\"")
    decreases |s|
  {
    if s != [] {
      assert s[0] != '\\';
      assert !("\\\"" <= s);
      NoBackslashNoPair(s[1..]);
    }
  }

  /** The lines bufio.Reader.ReadString('\n') hands to the loop, each with
      its newline. A last line without a newline comes back together with
      io.EOF, and the loop stops before decoding it. */
  function CompleteLines(text: string): seq<string>
    decreases |text|
  {
    var i := FirstIndex(text, '\n');
    if i == |text| then [] else [text[..i + 1]] + CompleteLines(text[i + 1..])
  }

  /** Every line the reader returns ends in a newline, its only one. */
  lemma {:induction false} CompleteLinesAreLines(text: string)
    ensures forall i :: 0 <= i < |CompleteLines(text)| ==> IsLine(CompleteLines(text)[i])
    decreases |text|
  {
    if '\n' in text {
      var line, rest := FirstLine(text);
      var lines := CompleteLines(rest);
      CompleteLinesAreLines(rest);
      assert IsLine(line) by {
        var i := FirstIndex(text, '\n');
        assert line[|line| - 1] == text[i];
        assert line[..|line| - 1] == text[..i];
      }
      forall j | 0 <= j < |[line] + lines|
        ensures IsLine(([line] + lines)[j])
      {
        if j > 0 {
          assert ([line] + lines)[j] == lines[j - 1];
        }
      }
    }
  }


  /** One complete line: a newline at the end and nowhere else. */
  predicate IsLine(line: string)
  {
    |line| > 0 && line[|line| - 1] == '\n' && '\n' !in line[..|line| - 1]
  }

  /** Text that ends at a line break (or is empty). */
  predicate EndsLine(text: string)
  {
    text == [] || text[|text| - 1] == '\n'
  }

  function Concat(lines: seq<string>): string
  {
    if lines == [] then "" else lines[0] + Concat(lines[1..])
  }

  /** What is left after the last newline: the bytes ReadString returns
      together with io.EOF. */
  function Unterminated(text: string): (r: string)
    ensures '\n' !in r
    decreases |text|
  {
    var i := FirstIndex(text, '\n');
    if i == |text| then text else Unterminated(text[i + 1..])
  }

  /** The reader loses nothing but the unterminated tail: the complete
      lines, glued back, followed by that tail, are the text. */
  lemma {:induction false} CompleteLinesCover(text: string)
    ensures text == Concat(CompleteLines(text)) + Unterminated(text)
    decreases |text|
  {
    if '\n' in text {
      var line, rest := FirstLine(text);
      CompleteLinesCover(rest);
      ConcatCons(line, CompleteLines(rest));
      Regroup(line, Concat(CompleteLines(rest)), Unterminated(rest));
    } else {
      assert CompleteLines(text) == [];
    }
  }

  /** The first line the reader returns, and the text after it. */
  lemma FirstLine(text: string) returns (line: string, rest: string)
    requires '\n' in text
    ensures line == text[..FirstIndex(text, '\n') + 1] && rest == text[FirstIndex(text, '\n') + 1..]
    ensures text == line + rest && |rest| < |text|
    ensures CompleteLines(text) == [line] + CompleteLines(rest)
    ensures Unterminated(text) == Unterminated(rest)
  {
    var i := FirstIndex(text, '\n');
    line, rest := text[..i + 1], text[i + 1..];
    assert text == line + rest;
  }

  lemma Regroup<T>(a: seq<T>, b: seq<T>, c: seq<T>)
    ensures a + (b + c) == (a + b) + c
  {
  }

  lemma ConcatCons(line: string, lines: seq<string>)
    ensures Concat([line] + lines) == line + Concat(lines)
  {
    assert ([line] + lines)[1..] == lines;
  }

  /** Reading two pieces of text, the first ending at a line break, gives
      the lines of the first followed by the lines of the second. */
  lemma {:induction false} CompleteLinesAppend(a: string, b: string)
    requires EndsLine(a)
    ensures CompleteLines(a + b) == CompleteLines(a) + CompleteLines(b)
    decreases |a|
  {
    if a == [] {
      assert a + b == b;
    } else {
      assert a[|a| - 1] == '\n';
      var line, rest := FirstLine(a);
      var line', rest' := FirstLine(a + b);
      FirstIndexAppend(a, b, '\n');
      SliceAppend(a, b, FirstIndex(a, '\n') + 1);
      assert EndsLine(rest) by {
        assert rest == [] || rest[|rest| - 1] == a[|a| - 1];
      }
      CompleteLinesAppend(rest, b);
      Regroup([line], CompleteLines(rest), CompleteLines(b));
    }
  }


  /** The result of reading a file into the alias map: the new map, or the
      panic of a declaration line without `=`. */
  datatype LoadResult = Loaded(aliases: map<string, string>) | Crashed

  /** checkAliases' loop over lines: each line is decoded in turn and its
      entry stored into the map it already has. */
  function LoadLines(m: map<string, string>, lines: seq<string>): LoadResult
    decreases |lines|
  {
    if lines == [] then Loaded(m)
    else match DecodeLine(lines[0])
      case Skip => LoadLines(m, lines[1..])
      case Entry(k, v) => LoadLines(m[k := v], lines[1..])
      case OutOfRange => Crashed
  }

  /** checkAliases on the file text `text`, starting from the map `m`. */
  function Load(m: map<string, string>, text: string): LoadResult
  {
    LoadLines(m, CompleteLines(text))
  }

  /** Loading into a map is loading into the empty map and laying the
      result over it: the map is never cleared, a key the text does not
      declare keeps its value, a key it declares gets the text's value. */
  lemma {:induction false} LoadLinesOverlay(m: map<string, string>, d: map<string, string>, lines: seq<string>)
    ensures LoadLines(m + d, lines).Crashed? <==> LoadLines(d, lines).Crashed?
    ensures LoadLines(d, lines).Loaded? ==>
              LoadLines(m + d, lines) == Loaded(m + LoadLines(d, lines).aliases)
    decreases |lines|
  {
    if lines != [] {
      match DecodeLine(lines[0])
      case Skip => LoadLinesOverlay(m, d, lines[1..]);
      case Entry(k, v) =>
        UpdateUnion(m, d, k, v);
        LoadLinesOverlay(m, d[k := v], lines[1..]);
      case OutOfRange =>
    }
  }

  /** Storing into a union stores into its right-hand side. */
  lemma UpdateUnion<K, V>(m: map<K, V>, d: map<K, V>, k: K, v: V)
    ensures (m + d)[k := v] == m + d[k := v]
  {
  }

  lemma LoadNeverClears(m: map<string, string>, text: string)
    ensures Load(m, text).Crashed? <==> Load(map[], text).Crashed?
    ensures Load(map[], text).Loaded? ==> Load(m, text) == Loaded(m + Load(map[], text).aliases)
  {
    UnionEmpty(m);
    LoadLinesOverlay(m, map[], CompleteLines(text));
  }

  /** Reading lines one after another is reading the first batch and then
      the second from where the first left the map. */
  lemma {:induction false} LoadLinesAppend(m: map<string, string>, a: seq<string>, b: seq<string>)
    ensures LoadLines(m, a + b) ==
              match LoadLines(m, a)
              case Loaded(m') => LoadLines(m', b)
              case Crashed => Crashed
    decreases |a|
  {
    if a == [] {
      assert a + b == b;
    } else {
      assert (a + b)[0] == a[0];
      assert (a + b)[1..] == a[1..] + b;
      match DecodeLine(a[0])
      case Skip => LoadLinesAppend(m, a[1..], b);
      case Entry(k, v) => LoadLinesAppend(m[k := v], a[1..], b);
      case OutOfRange =>
    }
  }

  /** Lines that declare nothing about `k` leave its value alone. */
  lemma {:induction false} LoadLinesKeepsKey(m: map<string, string>, lines: seq<string>, k: string)
    requires forall i :: 0 <= i < |lines| ==> !(DecodeLine(lines[i]).Entry? && DecodeLine(lines[i]).key == k)
    requires LoadLines(m, lines).Loaded?
    ensures k in m <==> k in LoadLines(m, lines).aliases
    ensures k in m ==> LoadLines(m, lines).aliases[k] == m[k]
    decreases |lines|
  {
    if lines != [] {
      match DecodeLine(lines[0])
      case Skip => LoadLinesKeepsKey(m, lines[1..], k);
      case Entry(k', v) => LoadLinesKeepsKey(m[k' := v], lines[1..], k);
    }
  }

  /** For a key declared on several lines, the last one wins. */
  lemma LoadLastWins(m: map<string, string>, before: seq<string>, line: string, after: seq<string>, k: string, v: string)
    requires DecodeLine(line) == Entry(k, v)
    requires forall i :: 0 <= i < |after| ==> !(DecodeLine(after[i]).Entry? && DecodeLine(after[i]).key == k)
    requires LoadLines(m, before + [line] + after).Loaded?
    ensures k in LoadLines(m, before + [line] + after).aliases
    ensures LoadLines(m, before + [line] + after).aliases[k] == v
  {
    LoadLinesAppend(m, before, [line] + after);
    assert before + [line] + after == before + ([line] + after);
    var m' := LoadLines(m, before).aliases;
    assert ([line] + after)[1..] == after;
    LoadLinesKeepsKey(m'[k := v], after, k);
  }

  /** A last line without a newline is never decoded. */
  lemma UnterminatedTailIgnored(m: map<string, string>, text: string, tail: string)
    requires EndsLine(text)
    requires '\n' !in tail
    ensures Load(m, text + tail) == Load(m, text)
  {
    CompleteLinesAppend(text, tail);
    assert CompleteLines(tail) == [];
    assert CompleteLines(text) + [] == CompleteLines(text);
  }

  /** `order` lists every key of the set exactly once: one possible order
      in which Go ranges over a map with these keys. */
  ghost predicate IsEnumeration(order: seq<string>, keys: set<string>)
  {
    && (forall i :: 0 <= i < |order| ==> order[i] in keys)
    && (forall k :: k in keys ==> k in order)
    && (forall i, j :: 0 <= i < j < |order| ==> order[i] != order[j])
  }

  /** The text writeAliases builds: one FormatLine per key of `m`, in the
      order `order` in which the map was ranged over. */
  function Serialize(m: map<string, string>, order: seq<string>): string
    requires forall k :: k in order ==> k in m
    decreases |order|
  {
    if order == [] then "" else FormatLine(order[0], m[order[0]]) + Serialize(m, order[1..])
  }

  /** Appending one more line at the end, as the loop of writeAliases does. */
  lemma {:induction false} SerializeSnoc(m: map<string, string>, order: seq<string>, k: string)
    requires forall x :: x in order ==> x in m
    requires k in m
    ensures Serialize(m, order + [k]) == Serialize(m, order) + FormatLine(k, m[k])
    decreases |order|
  {
    if order == [] {
      assert order + [k] == [k];
    } else {
      assert (order + [k])[0] == order[0];
      assert (order + [k])[1..] == order[1..] + [k];
      SerializeSnoc(m, order[1..], k);
    }
  }

  /** Every key and value of `m` is clean. */
  ghost predicate CleanMap(m: map<string, string>)
  {
    forall k :: k in m ==> Clean(k) && Clean(m[k])
  }

  /** No key or value of `m` holds a newline: all writeAliases needs to
      print one line per entry. */
  ghost predicate NewlineFreeMap(m: map<string, string>)
  {
    forall k :: k in m ==> '\n' !in k && '\n' !in m[k]
  }

  lemma ReadFormatLine(key: string, value: string, rest: string)
    requires '\n' !in key && '\n' !in value
    ensures CompleteLines(FormatLine(key, value) + rest) == [FormatLine(key, value)] + CompleteLines(rest)
  {
    var body := "alias " + key + "='" + value + "'";
    var line := FormatLine(key, value);
    assert line == body + ['\n'];
    assert line + rest == body + ['\n'] + rest;
    FirstIndexAfter(body, '\n', rest);
    assert (line + rest)[..|body| + 1] == line;
    assert (line + rest)[|body| + 1..] == rest;
  }

  /** The text writeAliases builds reads back as one line per listed key. */
  lemma {:induction false} SerializedLines(m: map<string, string>, order: seq<string>)
    requires forall k :: k in order ==> k in m
    requires NewlineFreeMap(m)
    ensures |CompleteLines(Serialize(m, order))| == |order|
    ensures forall i :: 0 <= i < |order| ==>
              CompleteLines(Serialize(m, order))[i] == FormatLine(order[i], m[order[i]])
    decreases |order|
  {
    if order != [] {
      ReadFormatLine(order[0], m[order[0]], Serialize(m, order[1..]));
      SerializedLines(m, order[1..]);
    }
  }

  /** The entries of `m` for the keys listed in `order`. */
  function Pick(m: map<string, string>, order: seq<string>): map<string, string>
    requires forall k :: k in order ==> k in m
    decreases |order|
  {
    if order == [] then map[] else map[order[0] := m[order[0]]] + Pick(m, order[1..])
  }

  lemma {:induction false} PickAgrees(m: map<string, string>, order: seq<string>)
    requires forall k :: k in order ==> k in m
    ensures forall k :: k in Pick(m, order) <==> k in order
    ensures forall k :: k in Pick(m, order) ==> Pick(m, order)[k] == m[k]
    decreases |order|
  {
    if order != [] {
      PickAgrees(m, order[1..]);
      forall k ensures k in order <==> k == order[0] || k in order[1..] {
        assert order == [order[0]] + order[1..];
      }
    }
  }

  lemma LoadLinesCons(acc: map<string, string>, line: string, rest: seq<string>, k: string, v: string)
    requires DecodeLine(line) == Entry(k, v)
    ensures LoadLines(acc, [line] + rest) == LoadLines(acc[k := v], rest)
  {
    assert ([line] + rest)[1..] == rest;
  }

  lemma PickCons(acc: map<string, string>, m: map<string, string>, order: seq<string>)
    requires forall k :: k in order ==> k in m
    requires order != []
    ensures acc[order[0] := m[order[0]]] + Pick(m, order[1..]) == acc + Pick(m, order)
  {
  }

  lemma {:induction false} LoadSerialized(acc: map<string, string>, m: map<string, string>, order: seq<string>)
    requires forall k :: k in order ==> k in m
    requires CleanMap(m)
    ensures Load(acc, Serialize(m, order)) == Loaded(acc + Pick(m, order))
    decreases |order|
  {
    if order == [] {
      assert acc + map[] == acc;
    } else {
      var k0 := order[0];
      var v0 := m[k0];
      var rest := Serialize(m, order[1..]);
      ReadFormatLine(k0, v0, rest);
      DecodeFormatLine(k0, v0);
      LoadLinesCons(acc, FormatLine(k0, v0), CompleteLines(rest), k0, v0);
      LoadSerialized(acc[k0 := v0], m, order[1..]);
      PickCons(acc, m, order);
    }
  }

  /** The round trip: whatever order writeAliases ranged over the map in,
      reading its text into an empty map gives the map back, as long as
      no key or value holds `=`, a single quote, a newline or a
      backslash-double-quote pair. */
  lemma RoundTrip(m: map<string, string>, order: seq<string>)
    requires IsEnumeration(order, m.Keys)
    requires CleanMap(m)
    ensures Load(map[], Serialize(m, order)) == Loaded(m)
  {
    LoadSerialized(map[], m, order);
    PickAll(m, order);
    EmptyUnion(m);
  }

  lemma EmptyUnion<K, V>(m: map<K, V>)
    ensures map[] + m == m
  {
  }

  lemma UnionEmpty<K, V>(m: map<K, V>)
    ensures m + map[] == m
  {
  }

  lemma SelfUnion<K, V>(m: map<K, V>)
    ensures m + m == m
  {
  }

  /** Picking every key of the map, in any order, gives the map. */
  lemma PickAll(m: map<string, string>, order: seq<string>)
    requires IsEnumeration(order, m.Keys)
    ensures Pick(m, order) == m
  {
    var p := Pick(m, order);
    PickAgrees(m, order);
    assert p.Keys == m.Keys;
  }

  /** Reading the file writeAliases wrote back into the map it was
      written from (as listAliases does) changes nothing. */
  lemma ReloadIsStable(m: map<string, string>, order: seq<string>)
    requires IsEnumeration(order, m.Keys)
    requires CleanMap(m)
    ensures Load(m, Serialize(m, order)) == Loaded(m)
  {
    RoundTrip(m, order);
    LoadNeverClears(m, Serialize(m, order));
    SelfUnion(m);
  }

  /** The file writeAliases writes has exactly one line per alias, for
      any map whose keys and values hold no newline: an `=`, a quote or a
      backslash in a value does not change the count. */
  lemma SerializedLineCount(m: map<string, string>, order: seq<string>)
    requires IsEnumeration(order, m.Keys)
    requires NewlineFreeMap(m)
    ensures |CompleteLines(Serialize(m, order))| == |m|
    ensures EndsLine(Serialize(m, order))
  {
    SerializedLines(m, order);
    EnumerationSize(order, m.Keys);
    SerializeEndsLine(m, order);
  }

  lemma {:induction false} SerializeEndsLine(m: map<string, string>, order: seq<string>)
    requires forall k :: k in order ==> k in m
    ensures EndsLine(Serialize(m, order))
    decreases |order|
  {
    if order != [] {
      SerializeEndsLine(m, order[1..]);
    }
  }

  lemma {:induction false} EnumerationSize(order: seq<string>, keys: set<string>)
    requires IsEnumeration(order, keys)
    ensures |order| == |keys|
    decreases |order|
  {
    if order != [] {
      var rest := keys - {order[0]};
      forall k | k in rest ensures k in order[1..] {
        var i :| 0 <= i < |order| && order[i] == k;
      }
      EnumerationSize(order[1..], rest);
    }
  }
}
