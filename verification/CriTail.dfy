/** The CRI log tailer: reading an append-only file in chunks and reassembling
    partial lines (crates/agent/src/cri.rs:70-128, 211-304).

    A string is its UTF-8 bytes.  The RFC 3339 timestamp parser and the UTF-8 test
    are parameters.  Timers, the channel closing and I/O errors other than a
    missing file are left out. */
module CriTail {
  import opened Wrappers

  type Bytes = seq<Byte>

  const NEWLINE: Byte := 10
  const SPACE: Byte := 32

  datatype Stream = Stdout | Stderr

  /** A parsed CRI line. */
  datatype Line = Line(ts: nat, stream: Stream, full: bool, message: Bytes)

  datatype RawLog = RawLog(stream: Stream, ts: nat, body: Bytes)

  /** The library calls. */
  datatype Env = Env(utf8: Bytes -> bool, timestamp: Bytes -> Option<nat>)

  const STDOUT: Bytes := [115, 116, 100, 111, 117, 116]
  const STDERR: Bytes := [115, 116, 100, 101, 114, 114]
  const TAG_FULL: Bytes := [70]
  const TAG_PARTIAL: Bytes := [80]

  // ---------------------------------------------------------------- one line

  /** The part up to the first space, and the part after it if there is one. */
  function Field(s: Bytes): (Bytes, Option<Bytes>) {
    if s == [] then ([], None)
    else if s[0] == SPACE then ([], Some(s[1..]))
    else
      var (first, rest) := Field(s[1..]);
      ([s[0]] + first, rest)
  }

  function ParseStream(s: Bytes): Option<Stream> {
    if s == STDOUT then Some(Stdout) else if s == STDERR then Some(Stderr) else None
  }

  /** Timestamp, stream, tag and message: four fields, the message possibly absent. */
  function ParseLine(env: Env, line: Bytes): Option<Line> {
    var (ts, afterTs) := Field(line);
    if afterTs.None? then None
    else
      var (name, afterStream) := Field(afterTs.value);
      var stream := ParseStream(name);
      if stream.None? || afterStream.None? then None
      else
        var (tag, message) := Field(afterStream.value);
        if tag != TAG_FULL && tag != TAG_PARTIAL then None
        else
          match env.timestamp(ts)
          case None => None
          case Some(nanos) =>
            Some(Line(nanos, stream.value, tag == TAG_FULL, if message.None? then [] else message.value))
  }

  function Ascii(s: string): (bs: Bytes)
    requires forall i | 0 <= i < |s| :: s[i] < 128 as char
    ensures |bs| == |s| && forall i | 0 <= i < |s| :: bs[i] == s[i] as int
  {
    seq(|s|, i requires 0 <= i < |s| => s[i] as int)
  }

  /** A CRI line as a container runtime writes it; the message may be left off. */
  function Spelled(ts: Bytes, stream: Stream, full: bool, message: Option<Bytes>): Bytes {
    var name := match stream case Stdout => Ascii("stdout") case Stderr => Ascii("stderr");
    var tag := Ascii(if full then "F" else "P");
    ts + [SPACE] + (name + [SPACE] + if message.Some? then tag + [SPACE] + message.value else tag)
  }

  lemma {:induction false} FieldEnds(first: Bytes, rest: Bytes)
    requires SPACE !in first
    ensures Field(first) == (first, None)
    ensures Field(first + [SPACE] + rest) == (first, Some(rest))
    decreases |first|
  {
    if first == [] {
      assert (first + [SPACE] + rest)[1..] == rest;
    } else {
      FieldEnds(first[1..], rest);
      assert (first + [SPACE] + rest)[1..] == first[1..] + [SPACE] + rest;
      assert first == [first[0]] + first[1..];
    }
  }

  lemma {:induction false} FieldIsFirst(s: Bytes)
    ensures var (first, rest) := Field(s);
      SPACE !in first && s == if rest.Some? then first + [SPACE] + rest.value else first
  {
    if s != [] && s[0] != SPACE {
      FieldIsFirst(s[1..]);
      assert s == [s[0]] + s[1..];
    } else if s != [] {
      assert s == [] + [SPACE] + s[1..];
    }
  }

  function StreamName(s: Stream): Bytes {
    match s case Stdout => STDOUT case Stderr => STDERR
  }

  function Tag(full: bool): Bytes {
    if full then TAG_FULL else TAG_PARTIAL
  }

  lemma {:induction false} WordsAreSpelled(stream: Stream, full: bool)
    ensures StreamName(stream) == match stream case Stdout => Ascii("stdout") case Stderr => Ascii("stderr")
    ensures Tag(full) == Ascii(if full then "F" else "P")
  {
  }

  /** A spelled line with a timestamp the parser takes gives back its four fields. */
  lemma {:induction false} SpelledParses(env: Env, ts: Bytes, stream: Stream, full: bool, message: Option<Bytes>)
    requires SPACE !in ts
    ensures ParseLine(env, Spelled(ts, stream, full, message)) ==
      if env.timestamp(ts).None? then None
      else Some(Line(env.timestamp(ts).value, stream, full, if message.Some? then message.value else []))
  {
    WordsAreSpelled(stream, full);
    var tail := if message.Some? then Tag(full) + [SPACE] + message.value else Tag(full);
    FieldEnds(ts, StreamName(stream) + [SPACE] + tail);
    FieldEnds(StreamName(stream), tail);
    FieldEnds(Tag(full), if message.Some? then message.value else []);
    FieldsParse(env, Spelled(ts, stream, full, message), StreamName(stream) + [SPACE] + tail, tail, stream, full);
  }

  lemma {:induction false} FieldsParse(env: Env, line: Bytes, afterTs: Bytes, afterStream: Bytes, stream: Stream, full: bool)
    requires Field(line).1 == Some(afterTs) && Field(afterTs) == (StreamName(stream), Some(afterStream))
    requires Field(afterStream).0 == Tag(full)
    ensures ParseLine(env, line) ==
      var ts, message := env.timestamp(Field(line).0), Field(afterStream).1;
      if ts.None? then None else Some(Line(ts.value, stream, full, if message.None? then [] else message.value))
  {
  }

  /** And no other line is taken. */
  lemma {:induction false} OnlySpelledParses(env: Env, line: Bytes) returns (ts: Bytes, message: Option<Bytes>)
    requires ParseLine(env, line).Some?
    ensures var l := ParseLine(env, line).value;
      && SPACE !in ts && env.timestamp(ts) == Some(l.ts)
      && line == Spelled(ts, l.stream, l.full, message) && l.message == if message.Some? then message.value else []
  {
    var afterTs := Field(line).1.value;
    var afterStream := Field(afterTs).1.value;
    ts, message := Field(line).0, Field(afterStream).1;
    FieldIsFirst(line);
    FieldIsFirst(afterTs);
    FieldIsFirst(afterStream);
    var l := ParseLine(env, line).value;
    WordsAreSpelled(l.stream, l.full);
  }

  /** A raw line that is empty, not UTF-8 or not CRI is skipped. */
  function Parsed(env: Env, raw: Bytes): Option<Line> {
    if raw == [] || !env.utf8(raw) then None else ParseLine(env, raw)
  }

  // ---------------------------------------------------------------- reassembly

  datatype Bufs = Bufs(stdout: Bytes, stderr: Bytes)
  {
    function Of(s: Stream): Bytes {
      match s case Stdout => stdout case Stderr => stderr
    }

    function With(s: Stream, b: Bytes): Bufs {
      match s case Stdout => Bufs(b, stderr) case Stderr => Bufs(stdout, b)
    }
  }

  /** What has been reassembled and emitted. */
  datatype Progress = Progress(bufs: Bufs, out: seq<RawLog>)

  /** One raw line. */
  function FoldLine(env: Env, p: Progress, raw: Bytes): Progress {
    match Parsed(env, raw)
    case None => p
    case Some(line) =>
      var body := p.bufs.Of(line.stream) + line.message;
      if line.full then Progress(p.bufs.With(line.stream, []), p.out + [RawLog(line.stream, line.ts, body)])
      else Progress(p.bufs.With(line.stream, body), p.out)
  }

  function FoldLines(env: Env, p: Progress, lines: seq<Bytes>): Progress
    decreases |lines|
  {
    if lines == [] then p else FoldLine(env, FoldLines(env, p, lines[..|lines| - 1]), lines[|lines| - 1])
  }

  const START: Progress := Progress(Bufs([], []), [])

  /** A full line of the stream. */
  predicate EndsMessage(env: Env, raw: Bytes, s: Stream) {
    var line := Parsed(env, raw);
    line.Some? && line.value.stream == s && line.value.full
  }

  /** Where the stream's message in progress before line `k` began: after its last full line. */
  function Since(env: Env, lines: seq<Bytes>, k: nat, s: Stream): (p: nat)
    requires k <= |lines|
    ensures p <= k
  {
    if k == 0 then 0
    else if EndsMessage(env, lines[k - 1], s) then k
    else Since(env, lines, k - 1, s)
  }

  /** The messages of stream `s` in lines `from` to `k`, joined. */
  function Joined(env: Env, lines: seq<Bytes>, from: nat, k: nat, s: Stream): Bytes
    requires from <= k <= |lines|
    decreases k
  {
    if k == from then []
    else
      var last := Parsed(env, lines[k - 1]);
      Joined(env, lines, from, k - 1, s) + if last.Some? && last.value.stream == s then last.value.message else []
  }

  /** The records of the first `k` lines: each full line ends the message its stream began after its previous full line. */
  function Records(env: Env, lines: seq<Bytes>, k: nat): seq<RawLog>
    requires k <= |lines|
  {
    if k == 0 then []
    else
      var last := Parsed(env, lines[k - 1]);
      Records(env, lines, k - 1) +
      if last.Some? && last.value.full
      then
        var s := last.value.stream;
        [RawLog(s, last.value.ts, Joined(env, lines, Since(env, lines, k - 1, s), k, s))]
      else []
  }

  lemma {:induction false} SinceIsAfterLastFull(env: Env, lines: seq<Bytes>, k: nat, s: Stream)
    requires k <= |lines|
    ensures var p := Since(env, lines, k, s);
      (p > 0 ==> EndsMessage(env, lines[p - 1], s)) && forall i | p <= i < k :: !EndsMessage(env, lines[i], s)
  {
    if k > 0 {
      SinceIsAfterLastFull(env, lines, k - 1, s);
    }
  }

  lemma OneMoreLine(env: Env, lines: seq<Bytes>, k: nat)
    requires 0 < k <= |lines|
    ensures FoldLines(env, START, lines[..k]) == FoldLine(env, FoldLines(env, START, lines[..k - 1]), lines[k - 1])
  {
    assert lines[..k][..k - 1] == lines[..k - 1];
  }

  /** A stream's buffer holds its joined partial messages since its last full line,
      whatever the other stream does. */
  lemma {:induction false} BufferHolds(env: Env, lines: seq<Bytes>, k: nat, s: Stream)
    requires k <= |lines|
    ensures FoldLines(env, START, lines[..k]).bufs.Of(s) == Joined(env, lines, Since(env, lines, k, s), k, s)
  {
    if k > 0 {
      BufferHolds(env, lines, k - 1, s);
      OneMoreLine(env, lines, k);
    }
  }

  /** Reassembly: each emitted body is its stream's partial messages since its last
      full line, joined with the full line's message. */
  lemma {:induction false} Reassembled(env: Env, lines: seq<Bytes>, k: nat)
    requires k <= |lines|
    ensures FoldLines(env, START, lines[..k]).out == Records(env, lines, k)
  {
    if k > 0 {
      Reassembled(env, lines, k - 1);
      OneMoreLine(env, lines, k);
      OneMoreRecord(env, lines, k - 1);
    }
  }

  /** What one more line emits. */
  lemma {:induction false} OneMoreRecord(env: Env, lines: seq<Bytes>, k: nat)
    requires k < |lines|
    ensures var p := FoldLines(env, START, lines[..k]);
      p.out == Records(env, lines, k) ==> FoldLine(env, p, lines[k]).out == Records(env, lines, k + 1)
  {
    var line := Parsed(env, lines[k]);
    if line.Some? {
      BufferHolds(env, lines, k, line.value.stream);
    }
  }

  // ---------------------------------------------------------------- one pass over the bytes

  /** The reference: read byte by byte, folding a line at each newline. */
  datatype Pass = Pass(line: Bytes, progress: Progress)

  function FeedByte(env: Env, p: Pass, b: Byte): Pass {
    if b == NEWLINE then Pass([], FoldLine(env, p.progress, p.line)) else Pass(p.line + [b], p.progress)
  }

  function Feed(env: Env, p: Pass, bytes: Bytes): Pass
    decreases |bytes|
  {
    if bytes == [] then p else FeedByte(env, Feed(env, p, bytes[..|bytes| - 1]), bytes[|bytes| - 1])
  }

  /** Reading in two parts is reading in one. */
  lemma {:induction false} FeedConcat(env: Env, p: Pass, a: Bytes, b: Bytes)
    ensures Feed(env, p, a + b) == Feed(env, Feed(env, p, a), b)
    decreases |b|
  {
    if b == [] {
      assert a + b == a;
    } else {
      var n := |b| - 1;
      FeedConcat(env, p, a, b[..n]);
      assert (a + b)[..|a + b| - 1] == a + b[..n] && (a + b)[|a + b| - 1] == b[n];
    }
  }

  lemma {:induction false} FeedLast(env: Env, p: Pass, bytes: Bytes, b: Byte)
    ensures Feed(env, p, bytes + [b]) == FeedByte(env, Feed(env, p, bytes), b)
  {
    assert (bytes + [b])[..|bytes|] == bytes;
  }

  predicate OneLine(bytes: Bytes) {
    forall i | 0 <= i < |bytes| :: bytes[i] != NEWLINE
  }

  /** Bytes without a newline only lengthen the line in progress. */
  lemma {:induction false} FeedOneLine(env: Env, progress: Progress, bytes: Bytes)
    requires OneLine(bytes)
    ensures Feed(env, Pass([], progress), bytes) == Pass(bytes, progress)
    decreases |bytes|
  {
    if bytes != [] {
      var n := |bytes| - 1;
      var before, b := bytes[..n], bytes[n];
      assert OneLine(before);
      FeedOneLine(env, progress, before);
      FeedLast(env, Pass([], progress), before, b);
      assert bytes == before + [b];
    }
  }

  /** The segments between newlines, the last one possibly empty. */
  function Split(bytes: Bytes): (r: seq<Bytes>)
    ensures |r| > 0
    decreases |bytes|
  {
    if bytes == [] then [[]]
    else
      var before, b := Split(bytes[..|bytes| - 1]), bytes[|bytes| - 1];
      var last := |before| - 1;
      if b == NEWLINE then before + [[]] else before[..last] + [before[last] + [b]]
  }

  /** Folding the segments before the last is the pass, whose line in progress is the last segment. */
  lemma {:induction false} SplitIsPass(env: Env, progress: Progress, bytes: Bytes)
    ensures var segments := Split(bytes);
      Feed(env, Pass([], progress), bytes) ==
        Pass(segments[|segments| - 1], FoldLines(env, progress, segments[..|segments| - 1]))
    decreases |bytes|
  {
    if bytes != [] {
      var n := |bytes| - 1;
      SplitIsPass(env, progress, bytes[..n]);
      var before, segments := Split(bytes[..n]), Split(bytes);
      var last := |before| - 1;
      if bytes[n] == NEWLINE {
        assert segments[..|segments| - 1] == before;
      } else {
        assert segments[..|segments| - 1] == before[..last];
      }
    }
  }

  /** Complete lines fold to the same progress, whether all segments are taken or all but the empty last. */
  lemma CompleteLines(env: Env, progress: Progress, bytes: Bytes)
    requires bytes != [] && bytes[|bytes| - 1] == NEWLINE
    ensures Feed(env, Pass([], progress), bytes) == Pass([], FoldLines(env, progress, Split(bytes)))
  {
    SplitIsPass(env, progress, bytes);
    var segments := Split(bytes);
    assert segments[|segments| - 1] == [];
  }

  /** A read joined to the leftover of the last: the lines it completes, then the new leftover. */
  lemma JoinedRead(env: Env, progress: Progress, leftover: Bytes, read: Bytes, complete: Bytes, rest: Bytes)
    requires OneLine(leftover) && OneLine(rest) && leftover + read == complete + rest
    requires complete == [] || complete[|complete| - 1] == NEWLINE
    ensures Feed(env, Pass(leftover, progress), read) ==
      Pass(rest, if complete == [] then progress else FoldLines(env, progress, Split(complete)))
  {
    FeedOneLine(env, progress, leftover);
    FeedConcat(env, Pass([], progress), leftover, read);
    FeedConcat(env, Pass([], progress), complete, rest);
    if complete == [] {
      FeedOneLine(env, progress, rest);
    } else {
      CompleteLines(env, progress, complete);
      FeedOneLine(env, FoldLines(env, progress, Split(complete)), rest);
    }
  }

  // ---------------------------------------------------------------- the tailer

  class Tailer {
    const env: Env
    const chunk: nat
    var offset: nat
    var leftover: Bytes
    var stdout: Bytes
    var stderr: Bytes
    var out: seq<RawLog>

    ghost predicate Valid()
      reads this
    {
      chunk > 0 && OneLine(leftover)
    }

    ghost function State(): Progress
      reads this
    {
      Progress(Bufs(stdout, stderr), out)
    }

    /** Everything in `file` from `start` to the offset has been read in one pass. */
    ghost predicate Follows(file: Bytes, start: nat)
      reads this
    {
      && start <= offset <= |file|
      && Pass(leftover, State()) == Feed(env, Pass([], START), file[start..offset])
    }

    constructor (env: Env, chunk: nat, start: nat)
      requires chunk > 0
      ensures Valid() && this.env == env && this.chunk == chunk && offset == start
      ensures forall file: Bytes | start <= |file| :: Follows(file, start)
    {
      this.env, this.chunk, offset := env, chunk, start;
      leftover, stdout, stderr, out := [], [], [], [];
    }

    /** Position after the last newline, or zero. */
    method AfterLastNewline(bytes: Bytes) returns (n: nat)
      ensures n <= |bytes| && (n > 0 ==> bytes[n - 1] == NEWLINE) && OneLine(bytes[n..])
    {
      n := |bytes|;
      while n > 0
        invariant n <= |bytes| && OneLine(bytes[n..])
      {
        if bytes[n - 1] == NEWLINE {
          return;
        }
        assert bytes[n - 1..] == [bytes[n - 1]] + bytes[n..];
        n := n - 1;
      }
    }

    /** Read what was appended, up to one chunk: the lines it completes, if there is anything new. */
    method ReadNew(file: Bytes) returns (r: Option<Bytes>)
      requires Valid()
      modifies `offset, `leftover, `stdout, `stderr
      ensures Valid()
      ensures if |file| < old(offset) then stdout == [] && stderr == [] else stdout == old(stdout) && stderr == old(stderr)
      ensures var from, pending := if |file| < old(offset) then 0 else old(offset), if |file| < old(offset) then [] else old(leftover);
        if |file| == from then r == None && offset == from && leftover == pending
        else
          && offset == (if |file| - from < chunk then |file| else from + chunk)
          && r.Some? && r.value + leftover == pending + file[from..offset]
          && (r.value == [] || r.value[|r.value| - 1] == NEWLINE)
    {
      if |file| < offset {
        offset, leftover, stdout, stderr := 0, [], [], [];
      }
      if |file| == offset {
        return None;
      }
      var toRead := if |file| - offset < chunk then |file| - offset else chunk;
      var buf := file[offset..offset + toRead];
      offset := offset + toRead;
      var combined := leftover + buf;
      var n := AfterLastNewline(combined);
      leftover := combined[n..];
      assert combined == combined[..n] + combined[n..];
      return Some(combined[..n]);
    }

    /** Parse complete lines, reassemble partials, emit. */
    method ProcessChunk(bytes: Bytes)
      modifies `stdout, `stderr, `out
      ensures State() == FoldLines(env, old(State()), Split(bytes))
    {
      var segments := Split(bytes);
      assert segments[..0] == [];
      for i := 0 to |segments|
        invariant State() == FoldLines(env, old(State()), segments[..i])
      {
        assert segments[..i + 1][..i] == segments[..i];
        ProcessLine(segments[i]);
      }
      assert segments[..|segments|] == segments;
    }

    method ProcessLine(raw: Bytes)
      modifies `stdout, `stderr, `out
      ensures State() == FoldLine(env, old(State()), raw)
    {
      if raw == [] || !env.utf8(raw) {
        return;
      }
      var parsed := ParseLine(env, raw);
      if parsed.None? {
        return;
      }
      var line := parsed.value;
      var buf := if line.stream == Stdout then stdout else stderr;
      var body := if buf == [] then line.message else buf + line.message;
      assert body == buf + line.message;
      var kept := if line.full then [] else body;
      if line.stream == Stdout {
        stdout := kept;
      } else {
        stderr := kept;
      }
      if !line.full {
        return;
      }
      out := out + [RawLog(line.stream, line.ts, body)];
    }

    /** One turn of the drain loop on an append-only file: the tailer keeps following it. */
    method Poll(file: Bytes, ghost start: nat) returns (more: bool)
      requires Valid() && Follows(file, start)
      modifies `offset, `leftover, `stdout, `stderr, `out
      ensures Valid() && Follows(file, start)
      ensures offset == if |file| - old(offset) < chunk then |file| else old(offset) + chunk
    {
      ghost var before, from := State(), offset;
      ghost var pending := leftover;
      var read := ReadNew(file);
      more := false;
      if read.Some? {
        ReadFollows(env, file, start, from, offset, Pass(pending, before), read.value, leftover);
        if read.value != [] {
          ProcessChunk(read.value);
        }
        more := |read.value| >= chunk;
      }
    }

    /** Any number of reads of a growing file, at whatever lengths it is observed. */
    method Tail(observed: seq<Bytes>, ghost start: nat)
      requires Valid() && observed != [] && AppendOnly(observed) && Follows(observed[0], start)
      modifies `offset, `leftover, `stdout, `stderr, `out
      ensures Valid() && Follows(observed[|observed| - 1], start)
    {
      for i := 0 to |observed|
        invariant Valid() && Follows(observed[if i == 0 then 0 else i - 1], start)
      {
        if i > 0 {
          assert observed[i - 1] <= observed[i];
          FollowsExtends(this, observed[i - 1], observed[i], start);
        }
        var more := Poll(observed[i], start);
      }
    }
  }

  /** One more read takes the pass from `from` to `to`. */
  lemma ReadFollows(env: Env, file: Bytes, start: nat, from: nat, to: nat, before: Pass, complete: Bytes, rest: Bytes)
    requires start <= from <= to <= |file| && before == Feed(env, Pass([], START), file[start..from])
    requires OneLine(before.line) && OneLine(rest) && before.line + file[from..to] == complete + rest
    requires complete == [] || complete[|complete| - 1] == NEWLINE
    ensures Feed(env, Pass([], START), file[start..to]) ==
      Pass(rest, if complete == [] then before.progress else FoldLines(env, before.progress, Split(complete)))
  {
    JoinedRead(env, before.progress, before.line, file[from..to], complete, rest);
    FeedConcat(env, Pass([], START), file[start..from], file[from..to]);
    assert file[start..to] == file[start..from] + file[from..to];
  }

  /** Appending to the file disturbs nothing. */
  lemma FollowsExtends(t: Tailer, file: Bytes, longer: Bytes, start: nat)
    requires t.Follows(file, start) && file <= longer
    ensures t.Follows(longer, start)
  {
    assert longer[start..t.offset] == file[start..t.offset];
  }

  /** Each observation of the file extends the one before. */
  ghost predicate AppendOnly(observed: seq<Bytes>) {
    forall i | 0 < i < |observed| :: observed[i - 1] <= observed[i]
  }

  /** The complete lines of a stretch of the file. */
  function CompleteLinesOf(bytes: Bytes): seq<Bytes> {
    Split(bytes)[..|Split(bytes)| - 1]
  }

  /** However the file was read, what has been emitted is the records of the complete
      lines seen so far. */
  lemma EmittedRecords(t: Tailer, file: Bytes, start: nat)
    requires t.Follows(file, start)
    ensures var lines := CompleteLinesOf(file[start..t.offset]);
      t.out == Records(t.env, lines, |lines|)
  {
    var lines := CompleteLinesOf(file[start..t.offset]);
    SplitIsPass(t.env, START, file[start..t.offset]);
    Reassembled(t.env, lines, |lines|);
    assert lines[..|lines|] == lines;
  }
}
