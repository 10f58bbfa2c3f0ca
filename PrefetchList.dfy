/**
 * The list-driven prefetcher of prefetch.cpp (DynamicPrefetcher): a text
 * file names the paths to prefetch, one per line; each line is trimmed of
 * spaces and kept when it looks like a path. The extents of each file are
 * then cut into read tasks of at most MAX_IO_SIZE bytes for the replay
 * queue.
 */
module PrefetchList {
  import opened Bytes
  import opened Wrappers
  import opened PrefetchTrace
  import opened Strings

  /** DynamicPrefetcher::MAX_FILE_SIZE, the largest list file accepted. */
  const MAX_FILE_SIZE: nat := 65536
  const MAX_IO_SIZE: nat := 0x10_0000
  /** 2^63: a size_t at or above it is negative as ssize_t. */
  const I64: nat := 0x8000_0000_0000_0000

  // ---------------------------------------------------------------- trim

  /** The length of the leading run of c. */
  function LeadCount(s: string, c: char): (k: nat)
    ensures k <= |s|
    ensures forall i :: 0 <= i < k ==> s[i] == c
    ensures k < |s| ==> s[k] != c
  {
    if |s| > 0 && s[0] == c then 1 + LeadCount(s[1..], c) else 0
  }

  /** The length of the trailing run of c. */
  function TrailCount(s: string, c: char): (k: nat)
    ensures k <= |s|
    ensures forall i :: |s| - k <= i < |s| ==> s[i] == c
    ensures k < |s| ==> s[|s| - 1 - k] != c
  {
    if |s| > 0 && s[|s| - 1] == c then 1 + TrailCount(s[..|s| - 1], c) else 0
  }

  /** The string without its leading and trailing runs of c. */
  function Trimmed(s: string, c: char): string
  {
    var a := LeadCount(s, c);
    if a == |s| then [] else s[a..|s| - TrailCount(s, c)]
  }

  function Repeat(c: char, n: nat): (r: string)
    ensures |r| == n && forall i :: 0 <= i < n ==> r[i] == c
  {
    seq(n, _ => c)
  }

  /** trim leaves neither a leading nor a trailing c. */
  lemma TrimmedEnds(s: string, c: char)
    ensures var r := Trimmed(s, c); r == [] || (r[0] != c && r[|r| - 1] != c)
  {
  }

  /**
   * trim removes every leading and trailing c and keeps the middle as it
   * was: the result neither starts nor ends with c, and the input is the
   * result with runs of c on both sides.
   */
  lemma TrimmedShape(s: string, c: char)
    ensures var r := Trimmed(s, c);
      (r == [] || (r[0] != c && r[|r| - 1] != c)) &&
      exists a :: 0 <= a <= |s| - |r| && s == Repeat(c, a) + r + Repeat(c, |s| - |r| - a)
  {
    TrimmedEnds(s, c);
    var a := LeadCount(s, c);
    var r := Trimmed(s, c);
    if a == |s| {
      assert s == Repeat(c, a) + r + Repeat(c, 0);
    } else {
      var b := TrailCount(s, c);
      assert s == Repeat(c, a) + r + Repeat(c, b);
    }
  }

  /** A string made only of c trims to nothing; one that neither starts nor ends with c is left alone. */
  lemma TrimmedExtremes(s: string, c: char)
    ensures (forall i :: 0 <= i < |s| ==> s[i] == c) ==> Trimmed(s, c) == []
    ensures (s == [] || (s[0] != c && s[|s| - 1] != c)) ==> Trimmed(s, c) == s
  {
  }

  /**
   * trim(str, c): advance `start` over leading c, then pull `end` back over
   * trailing c, and take str[start..end]. `end` is a size_t: it never goes
   * below 0 because str[start] is not c whenever start <= end.
   */
  method Trim(s: string, c: char) returns (r: string)
    ensures r == Trimmed(s, c)
  {
    if |s| == 0 {
      return s;
    }
    var start := 0;
    var end := |s| - 1;
    while start <= end && s[start] == c
      invariant 0 <= start <= |s| && end == |s| - 1
      invariant forall i :: 0 <= i < start ==> s[i] == c
    {
      start := start + 1;
    }
    assert start == LeadCount(s, c);
    while end >= start && s[end] == c
      invariant 0 <= end <= |s| - 1 && start - 1 <= end
      invariant start < |s| ==> s[start] != c
      invariant forall i :: end < i < |s| ==> s[i] == c
    {
      end := end - 1;
    }
    if start < |s| {
      assert end == |s| - 1 - TrailCount(s, c);
    }
    return s[start..end + 1];
  }

  // ------------------------------------------------------ invalid_abs_path

  /** [a-zA-Z0-9_\-\.] */
  predicate SegChar(ch: char)
  {
    ('a' <= ch <= 'z') || ('A' <= ch <= 'Z') || ('0' <= ch <= '9') || ch == '_' || ch == '-' || ch == '.'
  }

  /** The length of the leading run of segment characters. */
  function SegRun(t: string): (k: nat)
    ensures k <= |t|
    ensures forall i :: 0 <= i < k ==> SegChar(t[i])
    ensures k < |t| ==> !SegChar(t[k])
  {
    if |t| > 0 && SegChar(t[0]) then 1 + SegRun(t[1..]) else 0
  }

  /**
   * ([C]+\/)*[C]+\/? for C the segment characters. '/' is not one of them,
   * so each segment is the whole run up to the next '/'.
   */
  predicate Segments(t: string)
    decreases |t|
  {
    var k := SegRun(t);
    0 < k && (k == |t| || (t[k] == '/' && (k + 1 == |t| || Segments(t[k + 1..]))))
  }

  /** What may follow the optional leading '/': nothing, segments, "." or "..". */
  predicate PathBody(t: string)
  {
    t == [] || Segments(t) || t == "." || t == ".."
  }

  /**
   * invalid_abs_path: a full match of (\/)?(segments|\.\.?)? . Despite the
   * name it is true for the paths the list keeps.
   */
  predicate InvalidAbsPath(p: string)
  {
    PathBody(p) || (|p| > 0 && p[0] == '/' && PathBody(p[1..]))
  }

  predicate Allowed(p: string)
  {
    forall i :: 0 <= i < |p| ==> SegChar(p[i]) || p[i] == '/'
  }

  predicate NoDoubleSlash(p: string)
  {
    forall i :: 0 <= i < |p| - 1 ==> !(p[i] == '/' && p[i + 1] == '/')
  }

  lemma {:induction false} SegmentsIff(t: string)
    ensures Segments(t) <==> (|t| > 0 && t[0] != '/' && Allowed(t) && NoDoubleSlash(t))
    decreases |t|
  {
    var k := SegRun(t);
    if k < |t| && k + 1 < |t| {
      var rest := t[k + 1..];
      SegmentsIff(rest);
      if Segments(t) {
        assert t[k] == '/' && Segments(rest);
        forall i | 0 <= i < |t|
          ensures SegChar(t[i]) || t[i] == '/'
        {
          if i > k {
            assert t[i] == rest[i - k - 1];
          }
        }
        forall i | 0 <= i < |t| - 1
          ensures !(t[i] == '/' && t[i + 1] == '/')
        {
          if i > k {
            assert t[i] == rest[i - k - 1] && t[i + 1] == rest[i - k];
          }
        }
      }
      if |t| > 0 && t[0] != '/' && Allowed(t) && NoDoubleSlash(t) {
        assert t[k] == '/';
        assert rest[0] == t[k + 1];
        forall i | 0 <= i < |rest|
          ensures SegChar(rest[i]) || rest[i] == '/'
        {
          assert rest[i] == t[i + k + 1];
        }
        forall i | 0 <= i < |rest| - 1
          ensures !(rest[i] == '/' && rest[i + 1] == '/')
        {
          assert rest[i] == t[i + k + 1] && rest[i + 1] == t[i + k + 2];
        }
      }
    }
  }

  /**
   * The pattern accepts exactly the strings over segment characters and '/'
   * with no two '/' in a row: "." and ".." are already segments.
   */
  lemma PathPatternIff(p: string)
    ensures InvalidAbsPath(p) <==> (Allowed(p) && NoDoubleSlash(p))
  {
    SegmentsIff(p);
    if |p| > 0 {
      var t := p[1..];
      SegmentsIff(t);
      assert "." == ['.'] && ".." == ['.', '.'];
      if p[0] == '/' && Allowed(p) && NoDoubleSlash(p) {
        forall i | 0 <= i < |t|
          ensures SegChar(t[i]) || t[i] == '/'
        {
          assert t[i] == p[i + 1];
        }
        forall i | 0 <= i < |t| - 1
          ensures !(t[i] == '/' && t[i + 1] == '/')
        {
          assert t[i] == p[i + 1] && t[i + 1] == p[i + 2];
        }
      }
      if p[0] == '/' && PathBody(t) {
        forall i | 0 <= i < |p|
          ensures SegChar(p[i]) || p[i] == '/'
        {
          if i > 0 {
            assert p[i] == t[i - 1];
          }
        }
        forall i | 0 <= i < |p| - 1
          ensures !(p[i] == '/' && p[i + 1] == '/')
        {
          if i > 0 {
            assert p[i] == t[i - 1] && p[i + 1] == t[i];
          }
        }
      }
    }
  }

  // ----------------------------------------------------------- list reload

  /** The lines std::getline yields: split at '\n'; a last line without '\n' still counts. */
  function Lines(s: string): (ls: seq<string>)
    ensures forall i :: 0 <= i < |ls| ==> '\n' !in ls[i]
    decreases |s|
  {
    if s == [] then []
    else
      var k := IndexOf(s, '\n');
      if k == |s| then [s] else [s[..k]] + Lines(s[k + 1..])
  }

  /** A line the list keeps: non-empty after trimming spaces, and matching the path pattern. */
  predicate Keep(line: string)
  {
    var t := Trimmed(line, ' ');
    t != [] && InvalidAbsPath(t)
  }

  /** The trimmed lines the list keeps, in order. */
  function Kept(lines: seq<string>): (fs: seq<string>)
    ensures |fs| <= |lines|
    decreases |lines|
  {
    if lines == [] then []
    else
      var last := lines[|lines| - 1];
      var front := Kept(lines[..|lines| - 1]);
      if Keep(last) then front + [Trimmed(last, ' ')] else front
  }

  /** What the prefetcher will open: a non-empty path, no surrounding spaces. */
  predicate Listed(f: string)
  {
    f != [] && InvalidAbsPath(f) && f[0] != ' ' && f[|f| - 1] != ' '
  }

  /** Every kept entry is the trimmed form of some line that passed the checks. */
  lemma {:induction false} KeptSound(lines: seq<string>)
    ensures forall f :: f in Kept(lines) ==> Listed(f)
    ensures forall f :: f in Kept(lines) ==> exists i :: 0 <= i < |lines| && f == Trimmed(lines[i], ' ')
    decreases |lines|
  {
    if lines != [] {
      var front := lines[..|lines| - 1];
      var last := lines[|lines| - 1];
      KeptSound(front);
      TrimmedEnds(last, ' ');
      forall f | f in Kept(lines)
        ensures Listed(f) && exists i :: 0 <= i < |lines| && f == Trimmed(lines[i], ' ')
      {
        if f in Kept(front) {
          var i :| 0 <= i < |front| && f == Trimmed(front[i], ' ');
          assert front[i] == lines[i];
        } else {
          assert f == Trimmed(last, ' ');
        }
      }
    }
  }

  /** Every line that survives trimming and matches is in the list. */
  lemma {:induction false} KeptComplete(lines: seq<string>, i: nat)
    requires i < |lines| && Keep(lines[i])
    ensures Trimmed(lines[i], ' ') in Kept(lines)
    decreases |lines|
  {
    if i < |lines| - 1 {
      var front := lines[..|lines| - 1];
      assert front[i] == lines[i];
      KeptComplete(front, i);
    }
  }

  /**
   * reload(): -1 when the list file cannot be opened or is larger than
   * MAX_FILE_SIZE; otherwise 0 with the kept lines, in order. `list` is the
   * file's content, None when it cannot be opened.
   */
  method ReloadList(list: Option<string>) returns (r: int, files: seq<string>)
    ensures r == 0 <==> list.Some? && |list.value| <= MAX_FILE_SIZE
    ensures r == -1 <==> !(r == 0)
    ensures files == if r == 0 then Kept(Lines(list.value)) else []
  {
    if list.None? {
      return -1, [];
    }
    if |list.value| > MAX_FILE_SIZE {
      return -1, [];
    }
    var lines := Lines(list.value);
    files := [];
    var i := 0;
    while i < |lines|
      invariant 0 <= i <= |lines|
      invariant files == Kept(lines[..i])
    {
      var line := Trim(lines[i], ' ');
      assert lines[..i + 1][..i] == lines[..i];
      if line != [] && InvalidAbsPath(line) {
        files := files + [line];
      }
      i := i + 1;
    }
    assert lines[..i] == lines;
    return 0, files;
  }

  // ----------------------------------------------------------- get_extents

  /** One fiemap extent: fe_physical and fe_length. */
  datatype Extent = Extent(physical: nat, length: nat)

  /** What get_extents sees of a file: st_size, and the extents fiemap reports (None when it fails). */
  datatype FileView = FileView(size: nat, fiemap: Option<seq<Extent>>)

  /** The file size rounded up to a whole number of alignment units, in uint64_t arithmetic that does not wrap here. */
  function AlignUp(size: nat, alignment: nat): (r: nat)
    requires alignment > 0
    ensures size <= r < size + alignment
    ensures exists q: nat :: r == q * alignment
  {
    var x := size + alignment - 1;
    var q: nat := x / alignment;
    DivMul(x, alignment);
    q * alignment
  }

  lemma DivMul(x: nat, d: nat)
    requires d > 0
    ensures x - d < x / d * d <= x
  {
  }

  /**
   * The read tasks for n bytes at `offset`: slices of MAX_IO_SIZE and a
   * last shorter one. The loop runs while (ssize_t)count > 0, so a count of
   * 2^63 or more yields nothing.
   */
  function Slices(offset: int, n: nat): seq<TraceFormat>
    decreases n
  {
    if n == 0 || n >= I64 then []
    else
      var k := if n > MAX_IO_SIZE then MAX_IO_SIZE else n;
      [TraceFormat(READ, 0, k, offset)] + Slices(offset + k, n - k)
  }

  /** The tasks of a sequence of extents: each takes min(fe_length, remaining) bytes from its physical offset. */
  function ExtentTasks(es: seq<Extent>, remaining: nat): seq<TraceFormat>
    decreases |es|
  {
    if es == [] then []
    else
      var take := if es[0].length < remaining then es[0].length else remaining;
      Slices(Signed(es[0].physical, 8), take) + ExtentTasks(es[1..], remaining - take)
  }

  function SumCounts(ts: seq<TraceFormat>): nat
  {
    if ts == [] then 0 else ts[0].count + SumCounts(ts[1..])
  }

  function TotalLength(es: seq<Extent>): nat
  {
    if es == [] then 0 else es[0].length + TotalLength(es[1..])
  }

  lemma {:induction false} SumCountsAppend(a: seq<TraceFormat>, b: seq<TraceFormat>)
    ensures SumCounts(a + b) == SumCounts(a) + SumCounts(b)
    decreases |a|
  {
    if a != [] {
      assert (a + b)[1..] == a[1..] + b;
      SumCountsAppend(a[1..], b);
    } else {
      assert a + b == b;
    }
  }

  /**
   * The slices of n < 2^63 bytes are READ tasks of layer 0, each of 1 to
   * MAX_IO_SIZE bytes, each starting where the previous one ended, and
   * together they cover exactly n bytes.
   */
  lemma {:induction false} SlicesShape(offset: int, n: nat)
    requires n < I64
    ensures var ts := Slices(offset, n);
      SumCounts(ts) == n &&
      (forall i :: 0 <= i < |ts| ==> ts[i].op == READ && ts[i].layerIndex == 0 && 0 < ts[i].count <= MAX_IO_SIZE) &&
      (forall i :: 0 <= i < |ts| ==> ts[i].offset == offset + SumCounts(ts[..i]))
    decreases n
  {
    if n > 0 {
      var k := if n > MAX_IO_SIZE then MAX_IO_SIZE else n;
      var ts := Slices(offset, n);
      var rest := Slices(offset + k, n - k);
      assert ts == [TraceFormat(READ, 0, k, offset)] + rest;
      SlicesShape(offset + k, n - k);
      assert ts[1..] == rest;
      forall i | 0 <= i < |ts|
        ensures ts[i].offset == offset + SumCounts(ts[..i])
      {
        if i > 0 {
          assert ts[..i][1..] == rest[..i - 1];
          assert ts[i] == rest[i - 1];
        }
      }
    }
  }

  /**
   * Over all extents the tasks cover min(total extent length, rounded file
   * size) bytes: each extent takes what is left of the budget.
   */
  lemma {:induction false} ExtentTasksTotal(es: seq<Extent>, remaining: nat)
    requires remaining < I64
    ensures SumCounts(ExtentTasks(es, remaining)) == Min(TotalLength(es), remaining)
    decreases |es|
  {
    if es != [] {
      var take := if es[0].length < remaining then es[0].length else remaining;
      SlicesShape(Signed(es[0].physical, 8), take);
      ExtentTasksTotal(es[1..], remaining - take);
      SumCountsAppend(Slices(Signed(es[0].physical, 8), take), ExtentTasks(es[1..], remaining - take));
    }
  }

  /** The tasks from extent i on: those of extent i, then the rest with what is left of the budget. */
  lemma ExtentTasksStep(es: seq<Extent>, i: nat, remaining: nat)
    requires i < |es|
    ensures var take := if es[i].length < remaining then es[i].length else remaining;
      ExtentTasks(es[i..], remaining) == Slices(Signed(es[i].physical, 8), take) + ExtentTasks(es[i + 1..], remaining - take)
  {
    assert es[i..][1..] == es[i + 1..];
  }


  /**
   * The inner loop of get_extents: while (ssize_t)count > 0, queue a task of
   * min(count, MAX_IO_SIZE) bytes and move the offset past it.
   */
  method SliceExtent(offset0: int, n: nat) returns (tasks: seq<TraceFormat>)
    ensures tasks == Slices(offset0, n)
  {
    tasks := [];
    var offset := offset0;
    var rem: nat := n;
    while 0 < rem < I64
      invariant tasks + Slices(offset, rem) == Slices(offset0, n)
      decreases rem
    {
      var slice := if rem > MAX_IO_SIZE then MAX_IO_SIZE else rem;
      var task := TraceFormat(READ, 0, slice, offset);
      assert Slices(offset, rem) == [task] + Slices(offset + slice, rem - slice);
      assert tasks + ([task] + Slices(offset + slice, rem - slice)) == (tasks + [task]) + Slices(offset + slice, rem - slice);
      tasks := tasks + [task];
      rem := rem - slice;
      offset := offset + slice;
    }
  }

  /**
   * get_extents: -1 when the file cannot be opened or fiemap fails;
   * otherwise 0, with the tasks pushed onto the replay queue returned in
   * push order. `file` is None when opening fails.
   */
  method GetExtents(file: Option<FileView>, alignment: nat) returns (r: int, tasks: seq<TraceFormat>)
    requires alignment > 0
    ensures r == -1 <==> file.None? || file.value.fiemap.None?
    ensures r == 0 || r == -1
    ensures tasks == if r == 0 then ExtentTasks(file.value.fiemap.value, AlignUp(file.value.size, alignment)) else []
  {
    if file.None? {
      return -1, [];
    }
    if file.value.fiemap.None? {
      return -1, [];
    }
    var extents := file.value.fiemap.value;
    var count0 := AlignUp(file.value.size, alignment);
    var count: nat := count0;
    tasks := [];
    var i := 0;
    while i < |extents|
      invariant 0 <= i <= |extents|
      invariant tasks + ExtentTasks(extents[i..], count) == ExtentTasks(extents, count0)
    {
      var e := extents[i];
      var take := if e.length < count then e.length else count;
      ExtentTasksStep(extents, i, count);
      var slices := SliceExtent(Signed(e.physical, 8), take);
      Associative(tasks, slices, ExtentTasks(extents[i + 1..], count - take));
      tasks := tasks + slices;
      count := count - take;
      i := i + 1;
    }
    return 0, tasks;
  }
}
