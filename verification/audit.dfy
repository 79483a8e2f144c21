/** The audit log: `record` appends one JSON line per call to a log file and
    swallows write failures; `readRecentLogs` reads the file back through a
    trim / split / drop-blank / parse-or-drop / last-`limit` / reverse pipeline.
    JSON.stringify and JSON.parse are abstract functions; the file is a string. */
module Audit {
  import opened Domain

  /** One line of the log file. */
  datatype LogEntry = LogEntry(
    timestamp: string,
    userId: Option<int>,
    action: string,
    resourceType: string,
    resourceId: Option<int>,
    meta: Meta)

  /** The outcome of `JSON.parse` on one line: it throws, yields `null`, or
      yields a value. */
  datatype Parsed<V> = Throws | JsonNull | Value(v: V)

  /** The outcome of `fs.readFile`: the contents, or an error code. */
  datatype FileRead = Contents(text: string) | ReadFailed(code: string)

  /** What readRecentLogs resolves to, or the error it rethrows. */
  datatype ReadOutcome<V> = Entries(entries: seq<V>) | Raised(code: string)

  /** The characters `String.prototype.trim` removes: ECMAScript WhiteSpace
      and LineTerminator. */
  predicate IsJsWhitespace(c: char) {
    || c == '\t' || c == '\n' || c == '\U{0B}' || c == '\U{0C}' || c == '\r' || c == ' '
    || c == '\U{A0}' || c == '\U{1680}' || ('\U{2000}' <= c <= '\U{200A}')
    || c == '\U{2028}' || c == '\U{2029}' || c == '\U{202F}' || c == '\U{205F}'
    || c == '\U{3000}' || c == '\U{FEFF}'
  }

  function TrimStart(s: string): (r: string)
    ensures |r| <= |s| && r == s[|s| - |r|..]
    ensures forall k | 0 <= k < |s| - |r| :: IsJsWhitespace(s[k])
    ensures r == [] || !IsJsWhitespace(r[0])
  {
    if |s| > 0 && IsJsWhitespace(s[0]) then TrimStart(s[1..]) else s
  }

  function TrimEnd(s: string): (r: string)
    ensures |r| <= |s| && r == s[..|r|]
    ensures forall k | |r| <= k < |s| :: IsJsWhitespace(s[k])
    ensures r == [] || !IsJsWhitespace(r[|r| - 1])
  {
    if |s| > 0 && IsJsWhitespace(s[|s| - 1]) then TrimEnd(s[..|s| - 1]) else s
  }

  /** r is the slice of s starting at i, and only whitespace lies outside it. */
  predicate CutAt(s: string, r: string, i: int) {
    && 0 <= i <= i + |r| <= |s|
    && r == s[i..i + |r|]
    && (forall k | 0 <= k < i :: IsJsWhitespace(s[k]))
    && (forall k | i + |r| <= k < |s| :: IsJsWhitespace(s[k]))
  }

  /** `s.trim()`: the result neither starts nor ends with whitespace, and
      only whitespace was removed on either side. */
  function Trim(s: string): (r: string)
    ensures |r| <= |s|
    ensures r == [] || (!IsJsWhitespace(r[0]) && !IsJsWhitespace(r[|r| - 1]))
    ensures r == [] <==> forall k | 0 <= k < |s| :: IsJsWhitespace(s[k])
    ensures exists i :: CutAt(s, r, i)
  {
    var t := TrimStart(s);
    var r := TrimEnd(t);
    TrimBothEndsIsCut(s, t, r);
    r
  }

  /** Dropping leading whitespace (s to t) and then trailing whitespace (t to r)
      cuts one slice out of s. */
  lemma TrimBothEndsIsCut(s: string, t: string, r: string)
    requires |t| <= |s| && t == s[|s| - |t|..]
    requires forall k | 0 <= k < |s| - |t| :: IsJsWhitespace(s[k])
    requires t == [] || !IsJsWhitespace(t[0])
    requires |r| <= |t| && r == t[..|r|]
    requires forall k | |r| <= k < |t| :: IsJsWhitespace(t[k])
    ensures CutAt(s, r, |s| - |t|)
    ensures r == [] <==> forall k | 0 <= k < |s| :: IsJsWhitespace(s[k])
  {
    var i := |s| - |t|;
    forall k | 0 <= k < |r| ensures r[k] == s[i + k] {
      assert r[k] == t[k] == s[i + k];
    }
    assert r == s[i..i + |r|];
    forall k | i + |r| <= k < |s|
      ensures IsJsWhitespace(s[k])
    {
      assert s[k] == t[k - i];
    }
    if r != [] {
      assert !IsJsWhitespace(s[i]) by { assert s[i] == r[0]; }
    }
  }

  /** A string that neither starts nor ends with whitespace is its own trim. */
  lemma TrimOfTrimmed(s: string)
    requires s == [] || (!IsJsWhitespace(s[0]) && !IsJsWhitespace(s[|s| - 1]))
    ensures Trim(s) == s
  {
    var t := TrimStart(s);
    assert |t| == |s|;
    assert TrimEnd(t) == t;
  }

  /** Lines joined with "\n" (the inverse of Split). */
  function Join(parts: seq<string>): string {
    if |parts| == 0 then ""
    else if |parts| == 1 then parts[0]
    else parts[0] + "\n" + Join(parts[1..])
  }

  /** `s.split('\n')`: at least one piece, no piece holds a newline, and
      joining the pieces gives back `s`. */
  function Split(s: string): (r: seq<string>)
    ensures |r| >= 1
    ensures forall k | 0 <= k < |r| :: '\n' !in r[k]
    ensures Join(r) == s
  {
    if |s| == 0 then [""]
    else
      var rest := Split(s[1..]);
      if s[0] == '\n' then
        assert [""] + rest == [""] + rest;
        assert ([""] + rest)[1..] == rest;
        assert s == "" + "\n" + s[1..];
        [""] + rest
      else
        var r := [[s[0]] + rest[0]] + rest[1..];
        assert r[1..] == rest[1..];
        assert s == [s[0]] + s[1..];
        r
  }

  lemma {:induction false} SplitLine(p: string, tail: string)
    requires '\n' !in p
    ensures Split(p + "\n" + tail) == [p] + Split(tail)
    decreases |p|
  {
    if |p| == 0 {
      assert p + "\n" + tail == "\n" + tail;
      assert ("\n" + tail)[1..] == tail;
    } else {
      var s := p + "\n" + tail;
      assert s[1..] == p[1..] + "\n" + tail;
      assert '\n' !in p[1..] by {
        forall k | 0 <= k < |p[1..]| ensures p[1..][k] != '\n' {
          assert p[1..][k] == p[k + 1];
        }
      }
      SplitLine(p[1..], tail);
      assert [p[0]] + p[1..] == p;
    }
  }

  lemma {:induction false} SplitSingle(p: string)
    requires '\n' !in p
    ensures Split(p) == [p]
    decreases |p|
  {
    if |p| > 0 {
      assert '\n' !in p[1..] by {
        forall k | 0 <= k < |p[1..]| ensures p[1..][k] != '\n' {
          assert p[1..][k] == p[k + 1];
        }
      }
      SplitSingle(p[1..]);
      assert [p[0]] + p[1..] == p;
    }
  }

  /** Splitting lines that hold no newline after joining them gives them back. */
  lemma {:induction false} SplitJoin(parts: seq<string>)
    requires |parts| >= 1
    requires forall k | 0 <= k < |parts| :: '\n' !in parts[k]
    ensures Split(Join(parts)) == parts
    decreases |parts|
  {
    if |parts| == 1 {
      SplitSingle(parts[0]);
    } else {
      SplitJoin(parts[1..]);
      SplitLine(parts[0], Join(parts[1..]));
      assert [parts[0]] + parts[1..] == parts;
    }
  }

  /** `.filter(line => line.length > 0)` */
  function NonBlank(lines: seq<string>): (r: seq<string>)
    ensures |r| <= |lines|
    ensures forall k | 0 <= k < |r| :: |r[k]| > 0
    ensures forall l :: l in r <==> l in lines && |l| > 0
  {
    if lines == [] then []
    else if |lines[0]| > 0 then [lines[0]] + NonBlank(lines[1..])
    else NonBlank(lines[1..])
  }

  /** `.map(parse-or-null).filter(e => e !== null)`: a line that throws and a
      line that parses to `null` are both dropped. */
  function ParseAll<V>(lines: seq<string>, parse: string -> Parsed<V>): (r: seq<V>)
    ensures |r| <= |lines|
    ensures forall v :: v in r ==> exists l :: l in lines && parse(l) == Value(v)
    ensures forall k | 0 <= k < |lines| && parse(lines[k]).Value? :: parse(lines[k]).v in r
  {
    if lines == [] then []
    else
      var rest := ParseAll(lines[1..], parse);
      assert forall l :: l in lines[1..] ==> l in lines;
      match parse(lines[0])
      case Value(v) => [v] + rest
      case _ => rest
  }

  /** Dropping blank lines works line by line: it distributes over concatenation. */
  lemma {:induction false} NonBlankAppend(a: seq<string>, b: seq<string>)
    ensures NonBlank(a + b) == NonBlank(a) + NonBlank(b)
    decreases |a|
  {
    if a == [] {
      assert a + b == b;
    } else {
      assert (a + b)[0] == a[0];
      assert (a + b)[1..] == a[1..] + b;
      NonBlankAppend(a[1..], b);
    }
  }

  /** One line is kept iff it is non-empty. */
  lemma NonBlankSingle(l: string)
    ensures NonBlank([l]) == if |l| > 0 then [l] else []
  {
    assert [l][1..] == [];
  }

  /** Parsing works line by line: it distributes over concatenation, so the
      entries kept stay in file order. */
  lemma {:induction false} ParseAllAppend<V>(a: seq<string>, b: seq<string>, parse: string -> Parsed<V>)
    ensures ParseAll(a + b, parse) == ParseAll(a, parse) + ParseAll(b, parse)
    decreases |a|
  {
    if a == [] {
      assert a + b == b;
    } else {
      assert (a + b)[0] == a[0];
      assert (a + b)[1..] == a[1..] + b;
      ParseAllAppend(a[1..], b, parse);
    }
  }

  /** One line yields its value when it parses to one, and nothing when parsing
      throws or gives `null`. */
  lemma ParseAllSingle<V>(l: string, parse: string -> Parsed<V>)
    ensures ParseAll([l], parse) == if parse(l).Value? then [parse(l).v] else []
  {
    assert [l][1..] == [];
  }

  /** `s.slice(start)` for an integer start: a negative start counts from the
      end (clamped at 0), a non-negative one is clamped at the length. */
  function SliceFrom<T>(s: seq<T>, start: int): (r: seq<T>)
    ensures start < 0 ==> |r| == if |s| + start < 0 then |s| else -start
    ensures start >= 0 ==> |r| == if start > |s| then 0 else |s| - start
    ensures forall k | 0 <= k < |r| :: r[k] == s[|s| - |r| + k]
  {
    var from := if start < 0 then (if |s| + start < 0 then 0 else |s| + start)
                else (if start > |s| then |s| else start);
    s[from..]
  }

  function Reverse<T>(s: seq<T>): (r: seq<T>)
    ensures |r| == |s|
    ensures forall k | 0 <= k < |s| :: r[k] == s[|s| - 1 - k]
  {
    if s == [] then [] else Reverse(s[1..]) + [s[0]]
  }

  /** `entries.slice(-limit).reverse()`. */
  function RecentFirst<T>(entries: seq<T>, limit: int): seq<T> {
    Reverse(SliceFrom(entries, -limit))
  }

  /** With limit >= 1: the newest min(limit, n) entries, newest first. */
  lemma RecentFirstTakesNewest<T>(entries: seq<T>, limit: int)
    requires limit >= 1
    ensures var r := RecentFirst(entries, limit);
            && |r| == (if limit < |entries| then limit else |entries|)
            && forall k | 0 <= k < |r| :: r[k] == entries[|entries| - 1 - k]
  {
  }

  /** Whatever the limit, every entry returned is one of the entries read. */
  lemma RecentFirstKeeps<T>(entries: seq<T>, limit: int, v: T)
    requires v in RecentFirst(entries, limit)
    ensures v in entries
  {
    var s := SliceFrom(entries, -limit);
    var k :| 0 <= k < |s| && Reverse(s)[k] == v;
    assert s[|s| - 1 - k] == v;
  }

  /** `slice(-0)` is `slice(0)`: limit 0 returns every entry, newest first. */
  lemma LimitZeroReturnsAll<T>(entries: seq<T>)
    ensures RecentFirst(entries, 0) == Reverse(entries)
  {
  }

  /** A negative limit drops the oldest -limit entries instead. */
  lemma NegativeLimitDropsOldest<T>(entries: seq<T>, limit: int)
    requires limit < 0
    ensures RecentFirst(entries, limit) ==
            Reverse(if -limit > |entries| then [] else entries[-limit..])
  {
  }

  /** The entries of a readable file in file order: its non-blank lines, parsed,
      with the lines that throw or give `null` dropped. */
  function Kept<V>(text: string, parse: string -> Parsed<V>): seq<V> {
    ParseAll(NonBlank(Split(Trim(text))), parse)
  }

  /** The entries a readable file yields: its parsed non-blank lines, the
      newest min(limit, n) first when limit >= 1. */
  function ReadText<V>(text: string, limit: int, parse: string -> Parsed<V>): (r: seq<V>)
    ensures limit >= 1 ==>
      var kept := Kept(text, parse);
      && |r| == (if limit < |kept| then limit else |kept|)
      && forall k | 0 <= k < |r| :: r[k] == kept[|kept| - 1 - k]
  {
    var kept := Kept(text, parse);
    if limit >= 1 then RecentFirstTakesNewest(kept, limit); RecentFirst(kept, limit)
    else RecentFirst(kept, limit)
  }

  /** readRecentLogs(limit) over the outcome of reading the file. */
  function RecentLogs<V>(read: FileRead, limit: int, parse: string -> Parsed<V>): (r: ReadOutcome<V>)
    ensures read.ReadFailed? && read.code == "ENOENT" ==> r == Entries([])
    ensures read.ReadFailed? && read.code != "ENOENT" ==> r == Raised(read.code)
    ensures read.Contents? ==> r.Entries?
    ensures read.Contents? && limit >= 1 ==>
      var kept := Kept(read.text, parse);
      && |r.entries| == (if limit < |kept| then limit else |kept|)
      && forall k | 0 <= k < |r.entries| :: r.entries[k] == kept[|kept| - 1 - k]
  {
    if read.ReadFailed? then
      if read.code == "ENOENT" then Entries([]) else Raised(read.code)
    else
      Entries(ReadText(read.text, limit, parse))
  }

  /** Every entry read back comes from some non-blank line of the file that
      parses to it: blank and unparseable lines are skipped, never raised. */
  lemma ReadEntriesComeFromLines<V>(text: string, limit: int, parse: string -> Parsed<V>, v: V)
    requires v in RecentLogs(Contents(text), limit, parse).entries
    ensures exists l :: l in Split(Trim(text)) && |l| > 0 && parse(l) == Value(v)
  {
    var pieces := Split(Trim(text));
    var lines := NonBlank(pieces);
    var all := ParseAll(lines, parse);
    RecentFirstKeeps(all, limit, v);
    var l :| l in lines && parse(l) == Value(v);
    assert l in pieces && |l| > 0;
  }

  /** The file written by recording `entries`, one `stringify(entry) + "\n"` each. */
  function Log(entries: seq<LogEntry>, stringify: LogEntry -> string): string {
    if entries == [] then "" else Log(entries[..|entries| - 1], stringify) + stringify(entries[|entries| - 1]) + "\n"
  }

  lemma LogSnoc(entries: seq<LogEntry>, e: LogEntry, stringify: LogEntry -> string)
    ensures Log(entries + [e], stringify) == Log(entries, stringify) + (stringify(e) + "\n")
  {
    assert (entries + [e])[..|entries|] == entries;
  }

  /** What JSON.stringify and JSON.parse guarantee for log entries: the text is
      one non-empty line that starts and ends with a non-blank character (an
      object is `{...}`), and parsing it gives the entry back. */
  ghost predicate LineCodec(stringify: LogEntry -> string, parse: string -> Parsed<LogEntry>) {
    forall e: LogEntry ::
      && |stringify(e)| > 0
      && '\n' !in stringify(e)
      && !IsJsWhitespace(stringify(e)[0])
      && !IsJsWhitespace(stringify(e)[|stringify(e)| - 1])
      && parse(stringify(e)) == Value(e)
  }

  function Lines(entries: seq<LogEntry>, stringify: LogEntry -> string): seq<string> {
    seq(|entries|, i requires 0 <= i < |entries| => stringify(entries[i]))
  }

  lemma {:induction false} JoinSnoc(parts: seq<string>, p: string)
    requires |parts| >= 1
    ensures Join(parts + [p]) == Join(parts) + "\n" + p
    decreases |parts|
  {
    if |parts| == 1 {
      assert (parts + [p])[1..] == [p];
    } else {
      assert (parts + [p])[1..] == parts[1..] + [p];
      JoinSnoc(parts[1..], p);
    }
  }

  lemma {:induction false} LogIsJoin(entries: seq<LogEntry>, stringify: LogEntry -> string)
    requires |entries| >= 1
    ensures Log(entries, stringify) == Join(Lines(entries, stringify)) + "\n"
    decreases |entries|
  {
    var n := |entries|;
    if n > 1 {
      var front := entries[..n - 1];
      LogIsJoin(front, stringify);
      assert Lines(entries, stringify) == Lines(front, stringify) + [stringify(entries[n - 1])];
      JoinSnoc(Lines(front, stringify), stringify(entries[n - 1]));
    } else {
      assert entries[..0] == [];
    }
  }

  lemma {:induction false} JoinEnds(parts: seq<string>)
    requires |parts| >= 1
    requires forall k | 0 <= k < |parts| :: |parts[k]| > 0
    ensures |Join(parts)| > 0
    ensures Join(parts)[0] == parts[0][0]
    ensures Join(parts)[|Join(parts)| - 1] == parts[|parts| - 1][|parts[|parts| - 1]| - 1]
    decreases |parts|
  {
    if |parts| > 1 {
      JoinEnds(parts[1..]);
    }
  }

  lemma {:induction false} ParseAllInverts(entries: seq<LogEntry>, stringify: LogEntry -> string,
                                          parse: string -> Parsed<LogEntry>)
    requires LineCodec(stringify, parse)
    ensures ParseAll(Lines(entries, stringify), parse) == entries
    decreases |entries|
  {
    if entries != [] {
      var ls := Lines(entries, stringify);
      assert ls[1..] == Lines(entries[1..], stringify);
      assert parse(ls[0]) == Value(entries[0]) by {
        assert ls[0] == stringify(entries[0]);
      }
      ParseAllInverts(entries[1..], stringify, parse);
      assert ParseAll(ls, parse) == [entries[0]] + entries[1..];
    }
  }

  lemma {:induction false} NonBlankKeepsFull(lines: seq<string>)
    requires forall k | 0 <= k < |lines| :: |lines[k]| > 0
    ensures NonBlank(lines) == lines
    decreases |lines|
  {
    if lines != [] {
      NonBlankKeepsFull(lines[1..]);
    }
  }

  /** A non-empty line with non-blank ends, followed by "\n", trims to the line. */
  lemma TrimDropsFinalNewline(body: string)
    requires |body| > 0 && !IsJsWhitespace(body[0]) && !IsJsWhitespace(body[|body| - 1])
    ensures Trim(body + "\n") == body
  {
    var text := body + "\n";
    assert text[0] == body[0];
    assert text[|body| - 1] == body[|body| - 1];
    assert text[..|body|] == body;
  }

  /** Each recorded line is non-empty, holds no newline and has non-blank ends. */
  lemma LinesAreClean(entries: seq<LogEntry>, stringify: LogEntry -> string,
                      parse: string -> Parsed<LogEntry>)
    requires LineCodec(stringify, parse)
    ensures var lines := Lines(entries, stringify);
            forall k | 0 <= k < |lines| ::
              && |lines[k]| > 0 && '\n' !in lines[k]
              && !IsJsWhitespace(lines[k][0]) && !IsJsWhitespace(lines[k][|lines[k]| - 1])
  {
    var lines := Lines(entries, stringify);
    forall k | 0 <= k < |lines|
      ensures && |lines[k]| > 0 && '\n' !in lines[k]
              && !IsJsWhitespace(lines[k][0]) && !IsJsWhitespace(lines[k][|lines[k]| - 1])
    {
      assert lines[k] == stringify(entries[k]);
    }
  }

  lemma EmptyLogReadsEmpty(limit: int, parse: string -> Parsed<LogEntry>)
    ensures RecentLogs(Contents(""), limit, parse) == Entries([])
  {
    assert Trim("") == "";
    assert Split("") == [""];
    assert NonBlank([""]) == [];
    assert Kept<LogEntry>("", parse) == [];
    assert SliceFrom<LogEntry>([], -limit) == [];
    assert ReadText("", limit, parse) == [];
  }

  /** A non-empty log trims to its lines joined with "\n". */
  lemma LogTrimsToLines(entries: seq<LogEntry>, stringify: LogEntry -> string,
                        parse: string -> Parsed<LogEntry>)
    requires entries != [] && LineCodec(stringify, parse)
    ensures Trim(Log(entries, stringify)) == Join(Lines(entries, stringify))
  {
    var lines := Lines(entries, stringify);
    LogIsJoin(entries, stringify);
    LinesAreClean(entries, stringify, parse);
    JoinEnds(lines);
    var body := Join(lines);
    assert !IsJsWhitespace(lines[0][0]);
    assert !IsJsWhitespace(lines[|lines| - 1][|lines[|lines| - 1]| - 1]);
    TrimDropsFinalNewline(body);
  }

  /** The non-blank lines of a non-empty log parse back to the recorded entries. */
  lemma LogParsesBack(entries: seq<LogEntry>, stringify: LogEntry -> string,
                      parse: string -> Parsed<LogEntry>)
    requires entries != [] && LineCodec(stringify, parse)
    ensures ParseAll(NonBlank(Split(Trim(Log(entries, stringify)))), parse) == entries
  {
    var lines := Lines(entries, stringify);
    LogTrimsToLines(entries, stringify, parse);
    LinesAreClean(entries, stringify, parse);
    SplitJoin(lines);
    NonBlankKeepsFull(lines);
    ParseAllInverts(entries, stringify, parse);
  }

  /** Reading back a log written by `record` gives the last `limit` recorded
      entries, newest first. */
  lemma RecordedLogReadsBack(entries: seq<LogEntry>, limit: int, stringify: LogEntry -> string,
                             parse: string -> Parsed<LogEntry>)
    requires LineCodec(stringify, parse)
    ensures RecentLogs(Contents(Log(entries, stringify)), limit, parse) == Entries(RecentFirst(entries, limit))
  {
    if entries == [] {
      EmptyLogReadsEmpty(limit, parse);
    } else {
      LogParsesBack(entries, stringify, parse);
    }
  }

  /** A line of a log file that may also hold lines `record` did not write:
      a recorded entry's JSON, or any other text. */
  datatype FileLine = Recorded(entry: LogEntry) | Junk(text: string)

  function LineText(l: FileLine, stringify: LogEntry -> string): string {
    match l
    case Recorded(e) => stringify(e)
    case Junk(t) => t
  }

  function FileLines(ls: seq<FileLine>, stringify: LogEntry -> string): seq<string> {
    seq(|ls|, i requires 0 <= i < |ls| => LineText(ls[i], stringify))
  }

  /** The recorded entries among the lines, in file order. */
  function RecordedEntries(ls: seq<FileLine>): (r: seq<LogEntry>)
    ensures |r| <= |ls|
    ensures forall e :: e in r <==> Recorded(e) in ls
  {
    if ls == [] then []
    else (if ls[0].Recorded? then [ls[0].entry] else []) + RecordedEntries(ls[1..])
  }

  /** A junk line is a single line that is blank or does not parse to an
      entry (JSON.parse throws or gives null). */
  predicate IsJunk(text: string, parse: string -> Parsed<LogEntry>) {
    '\n' !in text && (text == "" || !parse(text).Value?)
  }

  lemma JoinFirst(parts: seq<string>)
    requires |parts| >= 1 && |parts[0]| > 0
    ensures |Join(parts)| > 0 && Join(parts)[0] == parts[0][0]
  {
  }

  lemma {:induction false} JoinLast(parts: seq<string>)
    requires |parts| >= 1 && |parts[|parts| - 1]| > 0
    ensures |Join(parts)| > 0
    ensures Join(parts)[|Join(parts)| - 1] == parts[|parts| - 1][|parts[|parts| - 1]| - 1]
    decreases |parts|
  {
    if |parts| > 1 {
      JoinLast(parts[1..]);
    }
  }

  /** Blank and unparseable lines contribute nothing; recorded lines give
      their entries back, in order. */
  lemma {:induction false} JunkContributesNothing(ls: seq<FileLine>, stringify: LogEntry -> string,
                                                  parse: string -> Parsed<LogEntry>)
    requires LineCodec(stringify, parse)
    requires forall k | 0 <= k < |ls| && ls[k].Junk? :: IsJunk(ls[k].text, parse)
    ensures ParseAll(NonBlank(FileLines(ls, stringify)), parse) == RecordedEntries(ls)
    decreases |ls|
  {
    if ls != [] {
      var lines := FileLines(ls, stringify);
      assert lines == [lines[0]] + FileLines(ls[1..], stringify);
      JunkContributesNothing(ls[1..], stringify, parse);
      NonBlankAppend([lines[0]], FileLines(ls[1..], stringify));
      NonBlankSingle(lines[0]);
      ParseAllAppend(NonBlank([lines[0]]), NonBlank(FileLines(ls[1..], stringify)), parse);
      if |lines[0]| > 0 {
        ParseAllSingle(lines[0], parse);
      }
    }
  }

  /** The lines of such a file split back apart: each is a single line, and
      the file's ends are the non-blank ends of recorded JSON. */
  lemma FileLinesSplitBack(ls: seq<FileLine>, stringify: LogEntry -> string,
                           parse: string -> Parsed<LogEntry>)
    requires LineCodec(stringify, parse)
    requires |ls| >= 1 && ls[0].Recorded? && ls[|ls| - 1].Recorded?
    requires forall k | 0 <= k < |ls| && ls[k].Junk? :: IsJunk(ls[k].text, parse)
    ensures Split(Trim(Join(FileLines(ls, stringify)) + "\n")) == FileLines(ls, stringify)
  {
    var lines := FileLines(ls, stringify);
    assert lines[0] == stringify(ls[0].entry);
    assert lines[|lines| - 1] == stringify(ls[|ls| - 1].entry);
    JoinFirst(lines);
    JoinLast(lines);
    TrimDropsFinalNewline(Join(lines));
    forall k | 0 <= k < |lines|
      ensures '\n' !in lines[k]
    {
      if ls[k].Recorded? {
        assert lines[k] == stringify(ls[k].entry);
      }
    }
    SplitJoin(lines);
  }

  /** Reading a log file whose first and last lines were written by `record`,
      with blank or unparseable lines anywhere in between, gives the last
      `limit` recorded entries, newest first: the junk is skipped, never raised. */
  lemma JunkLinesSkipped(ls: seq<FileLine>, limit: int, stringify: LogEntry -> string,
                         parse: string -> Parsed<LogEntry>)
    requires LineCodec(stringify, parse)
    requires |ls| >= 1 && ls[0].Recorded? && ls[|ls| - 1].Recorded?
    requires forall k | 0 <= k < |ls| && ls[k].Junk? :: IsJunk(ls[k].text, parse)
    ensures RecentLogs(Contents(Join(FileLines(ls, stringify)) + "\n"), limit, parse) ==
            Entries(RecentFirst(RecordedEntries(ls), limit))
  {
    FileLinesSplitBack(ls, stringify, parse);
    JunkContributesNothing(ls, stringify, parse);
  }

  /** The audit service over a log file that starts absent. */
  class AuditService {
    /** The log file: None while it does not exist. */
    var file: Option<string>
    /** The entries whose line reached the file, oldest first. */
    ghost var recorded: seq<LogEntry>
    const stringify: LogEntry -> string

    ghost predicate Valid()
      reads this
    {
      && (file.None? ==> recorded == [])
      && (file.Some? ==> file.value == Log(recorded, stringify))
    }

    constructor (stringify: LogEntry -> string)
      ensures Valid() && file == None && this.stringify == stringify
    {
      file := None;
      recorded := [];
      this.stringify := stringify;
    }

    /** record: builds the entry (meta defaults to the empty object) and appends
        its line; a failed append (`writeFails`) is swallowed and leaves the file
        as it was. `now` is the timestamp the clock gives. */
    method Record(userId: Option<int>, action: string, resourceType: string, resourceId: Option<int>,
                  meta: Option<Meta>, now: string, writeFails: bool)
      requires Valid()
      modifies this
      ensures Valid()
      ensures var entry := LogEntry(now, userId, action, resourceType, resourceId, meta.GetOr(EmptyMeta));
              if writeFails then file == old(file) && recorded == old(recorded)
              else file == Some(old(file).GetOr("") + stringify(entry) + "\n") && recorded == old(recorded) + [entry]
    {
      var entry := LogEntry(now, userId, action, resourceType, resourceId, meta.GetOr(EmptyMeta));
      var line := stringify(entry) + "\n";
      if !writeFails {
        assert file.GetOr("") == Log(recorded, stringify);
        LogSnoc(recorded, entry, stringify);
        file := Some(file.GetOr("") + line);
        recorded := recorded + [entry];
      }
    }

    /** readRecentLogs: a missing file reads as ENOENT; `otherError` is any
        other failure of the read. */
    method ReadRecentLogs(limit: int, parse: string -> Parsed<LogEntry>, otherError: Option<string>)
      returns (r: ReadOutcome<LogEntry>)
      requires Valid()
      ensures otherError.Some? && file.Some? ==> r == RecentLogs(ReadFailed(otherError.value), limit, parse)
      ensures file.None? ==> r == Entries([])
      ensures LineCodec(stringify, parse) && otherError.None? ==> r == Entries(RecentFirst(recorded, limit))
    {
      var read := if file.None? then ReadFailed("ENOENT")
                  else if otherError.Some? then ReadFailed(otherError.value)
                  else Contents(file.value);
      r := RecentLogs(read, limit, parse);
      if file.Some? && otherError.None? && LineCodec(stringify, parse) {
        RecordedLogReadsBack(recorded, limit, stringify, parse);
      }
    }
  }
}
