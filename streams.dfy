/// std::getline(stream, str, delim) on a stream over a fixed text: a spec file
/// read line by line, or one of its lines read cell by cell. It is the only
/// tokenizer the loaders use; quoting and escaping are not handled by the
/// source, so none is modelled here.
module Streams {

  /** The observable state of a std::stringstream: the characters not yet
      extracted, and its eofbit and failbit. */
  datatype LineStream = LineStream(rest: string, eof: bool, fail: bool)

  /** What one std::getline call leaves behind: the stream, the target string,
      and whether the call converted to true. */
  datatype Got = Got(stream: LineStream, str: string, ok: bool)

  /** A std::stringstream freshly constructed on `line`. */
  function Open(line: string): LineStream
  {
    LineStream(line, false, false)
  }

  predicate Good(s: LineStream)
  {
    !s.eof && !s.fail
  }

  /** The index of the first `c` in `s` at or after `j`, or |s| when there is none. */
  function IndexFrom(s: string, c: char, j: nat): (k: nat)
    requires j <= |s|
    ensures j <= k <= |s|
    ensures k < |s| ==> s[k] == c
    decreases |s| - j
  {
    if j == |s| || s[j] == c then j else IndexFrom(s, c, j + 1)
  }

  /** The index of the first `c` in `s`, or |s| when `s` has none. */
  function IndexOf(s: string, c: char): (k: nat)
    ensures k <= |s|
    ensures k < |s| ==> s[k] == c
  {
    IndexFrom(s, c, 0)
  }

  lemma {:induction false} IndexFromIsFirst(s: string, c: char, j: nat)
    requires j <= |s|
    ensures forall i :: j <= i < IndexFrom(s, c, j) ==> s[i] != c
    decreases |s| - j
  {
    if j < |s| && s[j] != c {
      IndexFromIsFirst(s, c, j + 1);
    }
  }

  /** No `c` comes before IndexOf(s, c). */
  lemma IndexOfIsFirst(s: string, c: char)
    ensures c !in s[..IndexOf(s, c)]
  {
    IndexFromIsFirst(s, c, 0);
  }

  lemma {:induction false} IndexFromUnique(s: string, c: char, j: nat, k: nat)
    requires j <= k <= |s|
    requires forall i :: j <= i < k ==> s[i] != c
    requires k == |s| || s[k] == c
    ensures IndexFrom(s, c, j) == k
    decreases k - j
  {
    if j < k {
      IndexFromUnique(s, c, j + 1, k);
    }
  }

  /** IndexOf is the only index with no `c` before it and `c` or the end at it. */
  lemma IndexOfUnique(s: string, c: char, k: nat)
    requires k <= |s| && c !in s[..k]
    requires k == |s| || s[k] == c
    ensures IndexOf(s, c) == k
  {
    assert forall i :: 0 <= i < k ==> s[i] == s[..k][i];
    IndexFromUnique(s, c, 0, k);
  }

  /** One call std::getline(s, str, delim). When the stream is no longer good its
      sentry fails: failbit is set and `str` is left as it was. Otherwise `str` is
      erased first; if nothing at all can be extracted, eofbit and failbit are set
      and `str` stays empty. Otherwise the characters up to the delimiter (which is
      consumed and dropped) or up to the end (which sets eofbit) become `str`. */
  function Getline(s: LineStream, str: string, delim: char): Got
  {
    if !Good(s) then Got(s.(fail := true), str, false)
    else if s.rest == [] then Got(LineStream([], true, true), "", false)
    else
      var k := IndexOf(s.rest, delim);
      if k < |s.rest| then Got(LineStream(s.rest[k + 1..], false, false), s.rest[..k], true)
      else Got(LineStream([], true, false), s.rest, true)
  }

  /** A call succeeds exactly on a good stream with characters left; it then
      delivers a delimiter-free prefix and drops the delimiter after it, or takes
      everything and sets eofbit. A failing call sets failbit, consumes nothing, and
      leaves the target as it was, or empty if the stream was good. */
  lemma GetlineSpec(s: LineStream, str: string, delim: char)
    ensures var g := Getline(s, str, delim);
      && (g.ok <==> Good(s) && s.rest != [])
      && (g.ok ==> delim !in g.str && !g.stream.fail)
      && (g.ok ==> (g.stream.eof <==> delim !in s.rest))
      && (g.ok ==> s.rest == g.str + [delim] + g.stream.rest
                   || (s.rest == g.str && g.stream.rest == [] && g.stream.eof))
      && (!g.ok ==> g.stream.fail && g.stream.rest == s.rest)
      && (!g.ok ==> g.str == if Good(s) then "" else str)
  {
    if Good(s) && s.rest != [] {
      var k := IndexOf(s.rest, delim);
      IndexOfIsFirst(s.rest, delim);
      if k < |s.rest| {
        assert s.rest == s.rest[..k] + [delim] + s.rest[k + 1..];
      } else {
        assert s.rest[..k] == s.rest;
      }
    }
  }

  /** The stream after `n` std::getline calls starting from `s` (the target
      strings do not influence the stream). */
  function Calls(s: LineStream, n: nat, delim: char): LineStream
  {
    if n == 0 then s else Getline(Calls(s, n - 1, delim), "", delim).stream
  }

  /** The cells that successive std::getline(stream, cell, delim) calls deliver
      from a fresh stream on `line`, up to the first call that fails. */
  function Split(line: string, delim: char): (cells: seq<string>)
    ensures cells == [] <==> line == []
    decreases |line|
  {
    if line == [] then []
    else
      var k := IndexOf(line, delim);
      if k < |line| then [line[..k]] + Split(line[k + 1..], delim) else [line]
  }

  /** The cells written out with `delim` between neighbours. */
  function Join(cells: seq<string>, delim: char): string
  {
    if cells == [] then []
    else if |cells| == 1 then cells[0]
    else cells[0] + [delim] + Join(cells[1..], delim)
  }

  predicate Terminated(line: string, delim: char)
  {
    line != [] && line[|line| - 1] == delim
  }

  /** What the target string of the `k`-th (counting from 0) std::getline call on a
      fresh stream over `line` holds after that call, when it held `prev` before:
      the k-th cell while there is one; "" for the first call past the last cell if
      the line is empty or ends in the delimiter (the stream is still good then, so
      the target is erased); otherwise the target keeps its old value. */
  function Extracted(line: string, k: nat, prev: string, delim: char): string
  {
    var cells := Split(line, delim);
    if k < |cells| then cells[k]
    else if k == |cells| && (line == [] || Terminated(line, delim)) then ""
    else prev
  }

  lemma {:induction false} CallsFront(s: LineStream, n: nat, delim: char)
    ensures Calls(s, n + 1, delim) == Calls(Getline(s, "", delim).stream, n, delim)
  {
    if n > 0 {
      CallsFront(s, n - 1, delim);
    }
  }

  lemma {:induction false} FailedStaysFailed(s: LineStream, n: nat, delim: char)
    requires !Good(s)
    ensures !Good(Calls(s, n, delim))
  {
    if n > 0 {
      FailedStaysFailed(s, n - 1, delim);
    }
  }

  /** Splitting a line whose first delimiter is at `i`. */
  lemma SplitAt(line: string, delim: char, i: nat)
    requires i < |line| && i == IndexOf(line, delim)
    ensures Split(line, delim) == [line[..i]] + Split(line[i + 1..], delim)
  {
  }

  /** The first call on a line whose first delimiter is at `i` leaves a stream
      like a fresh one on the rest of the line. */
  lemma GetlineFirstCell(line: string, delim: char, i: nat)
    requires i < |line| && i == IndexOf(line, delim)
    ensures Getline(Open(line), "", delim).stream == Open(line[i + 1..])
  {
  }

  lemma TerminatedAfter(line: string, delim: char, i: nat)
    requires i < |line| && line[i] == delim
    ensures (line[i + 1..] == [] || Terminated(line[i + 1..], delim)) == Terminated(line, delim)
  {
    var tail := line[i + 1..];
    if tail != [] {
      assert tail[|tail| - 1] == line[|line| - 1];
    }
  }

  /** Reading past the only cell of a line without delimiter. */
  lemma NoDelimiter(line: string, delim: char)
    requires line != [] && IndexOf(line, delim) == |line|
    ensures Split(line, delim) == [line]
    ensures !Good(Getline(Open(line), "", delim).stream)
    ensures !Terminated(line, delim)
  {
    IndexOfIsFirst(line, delim);
    assert line[|line| - 1] in line[..IndexOf(line, delim)];
  }

  /** The first std::getline call on a fresh stream. */
  lemma FirstGetline(line: string, prev: string, delim: char)
    ensures Getline(Open(line), prev, delim).ok == (0 < |Split(line, delim)|)
    ensures Getline(Open(line), prev, delim).str == Extracted(line, 0, prev, delim)
  {
    if line != [] {
      var i := IndexOf(line, delim);
      if i < |line| {
        SplitAt(line, delim, i);
      } else {
        NoDelimiter(line, delim);
      }
    }
  }

  lemma CallsAfterFirstCell(line: string, k: nat, delim: char, i: nat)
    requires k > 0 && i < |line| && i == IndexOf(line, delim)
    ensures Calls(Open(line), k, delim) == Calls(Open(line[i + 1..]), k - 1, delim)
    ensures |Split(line, delim)| == 1 + |Split(line[i + 1..], delim)|
  {
    CallsFront(Open(line), k - 1, delim);
    GetlineFirstCell(line, delim, i);
    SplitAt(line, delim, i);
  }

  lemma ExtractedAfterFirstCell(line: string, k: nat, prev: string, delim: char, i: nat)
    requires k > 0 && i < |line| && i == IndexOf(line, delim)
    ensures Extracted(line, k, prev, delim) == Extracted(line[i + 1..], k - 1, prev, delim)
  {
    SplitAt(line, delim, i);
    TerminatedAfter(line, delim, i);
  }

  /** Every call after the first on a line without delimiter fails and keeps its target. */
  lemma PastOnlyCell(line: string, k: nat, prev: string, delim: char)
    requires k > 0 && IndexOf(line, delim) == |line|
    ensures !Getline(Calls(Open(line), k, delim), prev, delim).ok
    ensures Getline(Calls(Open(line), k, delim), prev, delim).str == Extracted(line, k, prev, delim)
  {
    var next := Getline(Open(line), "", delim).stream;
    CallsFront(Open(line), k - 1, delim);
    FailedStaysFailed(next, k - 1, delim);
    if line != [] {
      NoDelimiter(line, delim);
    }
  }

  /** A later call on a line whose first delimiter is at `i` behaves as the call
      before it on the rest of the line. */
  lemma PastFirstCell(line: string, k: nat, prev: string, delim: char, i: nat)
    requires k > 0 && i == IndexOf(line, delim) && i < |line|
    requires Getline(Calls(Open(line[i + 1..]), k - 1, delim), prev, delim).ok
             == (k - 1 < |Split(line[i + 1..], delim)|)
    requires Getline(Calls(Open(line[i + 1..]), k - 1, delim), prev, delim).str
             == Extracted(line[i + 1..], k - 1, prev, delim)
    ensures Getline(Calls(Open(line), k, delim), prev, delim).ok == (k < |Split(line, delim)|)
    ensures Getline(Calls(Open(line), k, delim), prev, delim).str == Extracted(line, k, prev, delim)
  {
    CallsAfterFirstCell(line, k, delim, i);
    ExtractedAfterFirstCell(line, k, prev, delim, i);
  }

  /** The k-th std::getline call on a fresh stream succeeds exactly when the line
      has more than k cells, and leaves `Extracted(line, k, prev, delim)` in its
      target. */
  lemma {:induction false} GetlineOnFresh(line: string, k: nat, prev: string, delim: char)
    ensures Getline(Calls(Open(line), k, delim), prev, delim).ok == (k < |Split(line, delim)|)
    ensures Getline(Calls(Open(line), k, delim), prev, delim).str == Extracted(line, k, prev, delim)
    decreases |line|
  {
    var i := IndexOf(line, delim);
    if k == 0 {
      FirstGetline(line, prev, delim);
    } else if i == |line| {
      PastOnlyCell(line, k, prev, delim);
    } else {
      GetlineOnFresh(line[i + 1..], k - 1, prev, delim);
      PastFirstCell(line, k, prev, delim, i);
    }
  }

  lemma IndexOfAfterPrefix(a: string, b: string, delim: char)
    requires delim !in a
    ensures IndexOf(a + [delim] + b, delim) == |a|
  {
    var s := a + [delim] + b;
    assert s[..|a|] == a;
    IndexOfUnique(s, delim, |a|);
  }

  lemma JoinCons(cell: string, cells: seq<string>, delim: char)
    requires cells != []
    ensures Join([cell] + cells, delim) == cell + [delim] + Join(cells, delim)
  {
    assert ([cell] + cells)[1..] == cells;
  }

  /** JoinSplit for a line whose first delimiter is its last character. */
  lemma JoinSplitLast(line: string, delim: char, i: nat)
    requires i == IndexOf(line, delim) && i == |line| - 1
    ensures Join(Split(line, delim), delim) + (if Terminated(line, delim) then [delim] else []) == line
  {
    SplitAt(line, delim, i);
    assert line[i + 1..] == [];
    assert line == line[..i] + [delim];
  }

  /** JoinSplit for a line with more after its first delimiter, given JoinSplit
      for what follows that delimiter. */
  lemma JoinSplitMiddle(line: string, delim: char, i: nat)
    requires i == IndexOf(line, delim) && i < |line| - 1
    requires var tail := line[i + 1..];
      Join(Split(tail, delim), delim) + (if Terminated(tail, delim) then [delim] else []) == tail
    ensures Join(Split(line, delim), delim) + (if Terminated(line, delim) then [delim] else []) == line
  {
    var cell, tail := line[..i], line[i + 1..];
    var t: string := if Terminated(tail, delim) then [delim] else [];
    SplitAt(line, delim, i);
    TerminatedAfter(line, delim, i);
    JoinCons(cell, Split(tail, delim), delim);
    var joined := Join(Split(tail, delim), delim);
    assert (cell + [delim] + joined) + t == (cell + [delim]) + (joined + t);
    assert line == cell + [delim] + tail;
  }

  /** Writing the cells back out gives the line again, apart from the one
      trailing delimiter, which produces no cell. */
  lemma {:induction false} JoinSplit(line: string, delim: char)
    ensures Join(Split(line, delim), delim) + (if Terminated(line, delim) then [delim] else []) == line
    decreases |line|
  {
    if line != [] {
      var i := IndexOf(line, delim);
      if i < |line| {
        JoinSplit(line[i + 1..], delim);
        if i == |line| - 1 {
          JoinSplitLast(line, delim, i);
        } else {
          JoinSplitMiddle(line, delim, i);
        }
      } else {
        NoDelimiter(line, delim);
      }
    }
  }

  /** Splitting joined cells gives them back, provided no cell holds the
      delimiter and the last cell is not empty. */
  lemma {:induction false} SplitJoin(cells: seq<string>, delim: char)
    requires forall i :: 0 <= i < |cells| ==> delim !in cells[i]
    requires cells == [] || cells[|cells| - 1] != []
    ensures Split(Join(cells, delim), delim) == cells
  {
    if |cells| == 1 {
      assert IndexOf(cells[0], delim) == |cells[0]|;
    } else if |cells| > 1 {
      var rest := Join(cells[1..], delim);
      IndexOfAfterPrefix(cells[0], rest, delim);
      var line := cells[0] + [delim] + rest;
      assert line[..|cells[0]|] == cells[0];
      assert line[|cells[0]| + 1..] == rest;
      SplitJoin(cells[1..], delim);
    }
  }

  /** Joined cells end with the last character of the last cell. */
  lemma {:induction false} JoinEndsWithLastCell(cells: seq<string>, delim: char)
    requires cells != [] && cells[|cells| - 1] != []
    ensures var line, last := Join(cells, delim), cells[|cells| - 1];
      line != [] && line[|line| - 1] == last[|last| - 1]
    decreases |cells|
  {
    if |cells| > 1 {
      JoinEndsWithLastCell(cells[1..], delim);
      assert cells[1..][|cells| - 2] == cells[|cells| - 1];
    }
  }

  /** A delimiter after the last cell adds no empty cell. */
  lemma {:induction false} TrailingDelimiterAddsNoCell(line: string, delim: char)
    requires line != [] && !Terminated(line, delim)
    ensures Split(line + [delim], delim) == Split(line, delim)
    decreases |line|
  {
    var i := IndexOf(line, delim);
    var ext := line + [delim];
    if i < |line| {
      assert IndexOf(ext, delim) == i by {
        IndexOfIsFirst(line, delim);
        assert ext == line[..i] + [delim] + (line[i + 1..] + [delim]);
        IndexOfAfterPrefix(line[..i], line[i + 1..] + [delim], delim);
      }
      var tail := line[i + 1..];
      assert ext[i + 1..] == tail + [delim];
      assert ext[..i] == line[..i];
      assert tail != [] && tail[|tail| - 1] == line[|line| - 1];
      TrailingDelimiterAddsNoCell(tail, delim);
    } else {
      IndexOfNoDelimiter(line, delim);
      assert ext[..|line|] == line;
      assert ext[|line| + 1..] == [];
    }
  }

  lemma IndexOfNoDelimiter(line: string, delim: char)
    requires IndexOf(line, delim) == |line|
    ensures IndexOf(line + [delim], delim) == |line|
  {
    var s := line + [delim];
    IndexOfIsFirst(line, delim);
    assert s[..|line|] == line[..IndexOf(line, delim)];
    IndexOfUnique(s, delim, |line|);
  }

  /** The k-th std::getline call on a fresh stream, whole: it succeeds exactly
      when the line has more than k cells, leaves `Extracted(line, k, prev, delim)`
      in its target, and leaves the stream as k + 1 calls do. */
  lemma NthGetline(line: string, k: nat, prev: string, delim: char)
    ensures Getline(Calls(Open(line), k, delim), prev, delim)
            == Got(Calls(Open(line), k + 1, delim), Extracted(line, k, prev, delim), k < |Split(line, delim)|)
  {
    GetlineOnFresh(line, k, prev, delim);
  }

  /** A std::istream over a fixed text (a std::stringstream on one line, or a
      std::ifstream on a whole file), read only by std::getline calls that all
      pass the delimiter `delim`. Its state after `calls` such calls is State();
      NthGetline shows what each call yields. */
  class InputStream {
    const source: string
    const delim: char
    var calls: nat

    constructor (line: string, delim: char)
      ensures source == line && this.delim == delim && calls == 0
    {
      source, this.delim, calls := line, delim, 0;
    }

    /** The stream's read position and eofbit/failbit flags. */
    function State(): LineStream
      reads this
    {
      Calls(Open(source), calls, delim)
    }

    /** std::getline(*this, str, delim): `str'` is what the target holds afterwards. */
    method Read(str: string) returns (ok: bool, str': string)
      modifies this
      ensures calls == old(calls) + 1
      ensures ok == (old(calls) < |Split(source, delim)|)
      ensures str' == Extracted(source, old(calls), str, delim)
    {
      NthGetline(source, calls, str, delim);
      var g := Getline(State(), str, delim);
      ok, str' := g.ok, g.str;
      calls := calls + 1;
    }
  }
}
