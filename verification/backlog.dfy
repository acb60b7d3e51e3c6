/** The file-backed backlog of backlog.go: an in-memory list of pending ADIF
    records with a `dirty` flag, saved as one record per line and loaded
    back by grouping lines under the `<adif_ver` header that starts every
    ADIF record. Opening and writing the file are reduced to the file's
    contents and a description of which writes succeed. */
module BacklogFile {
  import opened Common

  /** The prefix that starts a new record when the file is read back. */
  const Header: string := "<adif_ver"

  /** The state of a `backlogImpl` (the file path is left out). */
  datatype Backlog = Backlog(entries: seq<string>, dirty: bool)

  /** How the file system behaves during one `Save`: whether `OpenFile`
      succeeds, and how many `WriteString` calls succeed before one fails. */
  datatype Disk = Disk(opens: bool, writable: nat)

  datatype IoError = OpenFailed | WriteFailed

  /** The state after `NewBacklog`. */
  function NewBacklog(): (b: Backlog)
    ensures |b.entries| == 0 && !b.dirty
  {
    Backlog([], false)
  }

  /** `Add`: the record goes to the end and the list becomes dirty. */
  function Add(b: Backlog, adif: string): (r: Backlog)
    ensures |r.entries| == |b.entries| + 1
    ensures r.entries[..|b.entries|] == b.entries && r.entries[|b.entries|] == adif
    ensures r.dirty
  {
    Backlog(b.entries + [adif], true)
  }

  /** `Entries`: a copy of the list, built element by element. */
  method Entries(b: Backlog) returns (es: seq<string>)
    ensures es == b.entries
  {
    es := [];
    var i := 0;
    while i < |b.entries|
      invariant 0 <= i <= |b.entries|
      invariant es == b.entries[..i]
    {
      es := es + [b.entries[i]];
      i := i + 1;
    }
    assert b.entries[..|b.entries|] == b.entries;
  }

  /** `Remove`: drops every entry equal to `adif`, keeping the others in
      order, and marks the list dirty only when something was dropped. */
  method Remove(b: Backlog, adif: string) returns (r: Backlog)
    ensures r.entries == RemoveAll(b.entries, adif)
    ensures r.dirty <==> b.dirty || adif in b.entries
    ensures adif !in b.entries ==> r == b
  {
    var kept: seq<string> := [];
    var dirty := b.dirty;
    var i := 0;
    while i < |b.entries|
      invariant 0 <= i <= |b.entries|
      invariant kept == RemoveAll(b.entries[..i], adif)
      invariant dirty <==> b.dirty || |kept| < i
    {
      var e := b.entries[i];
      assert RemoveAll(b.entries[..i + 1], adif) == kept + (if e == adif then [] else [e]) by {
        assert b.entries[..i + 1] == b.entries[..i] + [e];
        RemoveAllSnoc(b.entries[..i], e, adif);
      }
      if e == adif {
        dirty := true;
      } else {
        kept := kept + [e];
      }
      i := i + 1;
    }
    assert b.entries[..|b.entries|] == b.entries;
    r := Backlog(kept, dirty);
    if adif !in b.entries {
      RemoveAbsent(b.entries, adif);
    }
  }

  /** Removing what was just added leaves the list as removing it from the
      list before the addition. */
  lemma RemoveUndoesAdd(b: Backlog, adif: string)
    ensures RemoveAll(Add(b, adif).entries, adif) == RemoveAll(b.entries, adif)
  {
    RemoveAllAppend(b.entries, [adif], adif);
  }

  /** The file written by `Save`: each entry followed by a newline. */
  function Serialize(es: seq<string>): (s: string)
    ensures |s| == 0 <==> |es| == 0
    ensures |s| > 0 ==> s[|s| - 1] == '\n'
    decreases |es|
  {
    if |es| == 0 then "" else es[0] + "\n" + Serialize(es[1..])
  }

  /** Writing one more entry extends the file by that entry and a newline. */
  lemma {:induction false} SerializeSnoc(es: seq<string>, e: string)
    ensures Serialize(es + [e]) == Serialize(es) + e + "\n"
    decreases |es|
  {
    if |es| == 0 {
      assert es + [e] == [e];
    } else {
      assert (es + [e])[1..] == es[1..] + [e];
      SerializeSnoc(es[1..], e);
    }
  }

  /** `Save`: a clean list writes nothing; otherwise the file is truncated
      and the entries are written in order, one per line. The list stays
      dirty unless every write succeeded. */
  method Save(b: Backlog, file: string, disk: Disk) returns (r: Backlog, written: string, err: Option<IoError>)
    ensures r.entries == b.entries
    ensures !b.dirty ==> r == b && written == file && err == None
    ensures b.dirty && !disk.opens ==> r == b && written == file && err == Some(OpenFailed)
    ensures b.dirty && disk.opens && |b.entries| <= disk.writable ==>
              !r.dirty && written == Serialize(b.entries) && err == None
    ensures b.dirty && disk.opens && disk.writable < |b.entries| ==>
              r.dirty && written == Serialize(b.entries[..disk.writable]) && err == Some(WriteFailed)
  {
    if !b.dirty {
      return b, file, None;
    }
    if !disk.opens {
      return b, file, Some(OpenFailed);
    }
    written := "";
    var i := 0;
    while i < |b.entries|
      invariant 0 <= i <= |b.entries| && i <= disk.writable
      invariant written == Serialize(b.entries[..i])
    {
      if i == disk.writable {
        return b, written, Some(WriteFailed);
      }
      SerializeSnoc(b.entries[..i], b.entries[i]);
      assert b.entries[..i + 1] == b.entries[..i] + [b.entries[i]];
      written := written + b.entries[i] + "\n";
      i := i + 1;
    }
    assert b.entries[..|b.entries|] == b.entries;
    r, err := b.(dirty := false), None;
  }

  /** Index of the first newline in `s`, or `|s|` when there is none. */
  function FirstNewline(s: string): (i: nat)
    ensures i <= |s|
    ensures i < |s| ==> s[i] == '\n'
    ensures '\n' !in s[..i]
    decreases |s|
  {
    if |s| == 0 || s[0] == '\n' then 0 else 1 + FirstNewline(s[1..])
  }

  /** The lines a `bufio.Scanner` yields for `s`: the pieces between
      newlines, without a trailing empty piece after a final newline. */
  function SplitLines(s: string): (ls: seq<string>)
    ensures |s| > 0 ==> |ls| > 0
    decreases |s|
  {
    if |s| == 0 then []
    else
      var i := FirstNewline(s);
      if i == |s| then [s] else [s[..i]] + SplitLines(s[i + 1..])
  }

  /** The lines of a file made of whole lines are the lines of each part. */
  lemma {:induction false} SplitLinesAppend(x: string, y: string)
    requires |x| == 0 || x[|x| - 1] == '\n'
    ensures SplitLines(x + y) == SplitLines(x) + SplitLines(y)
    decreases |x|
  {
    if |x| == 0 {
      assert x + y == y;
    } else {
      var i := FirstNewline(x);
      assert x[|x| - 1] in x;
      NewlineFound(x);
      var line, tail := x[..i], x[i + 1..];
      SplitLinesAppendStep(x, y, i);
      SplitLinesAppend(tail, y);
      AppendAssoc([line], SplitLines(tail), SplitLines(y));
    }
  }

  /** A text holding a line break has a first one. */
  lemma {:induction false} NewlineFound(s: string)
    requires '\n' in s
    ensures FirstNewline(s) < |s|
    decreases |s|
  {
    if s[0] != '\n' {
      assert s == [s[0]] + s[1..];
      NewlineFound(s[1..]);
    }
  }

  /** One line of `x` comes off the front of `x + y` as it does off `x`. */
  lemma SplitLinesAppendStep(x: string, y: string, i: nat)
    requires i == FirstNewline(x) < |x|
    ensures SplitLines(x + y) == [x[..i]] + SplitLines(x[i + 1..] + y)
    ensures SplitLines(x) == [x[..i]] + SplitLines(x[i + 1..])
  {
    FirstNewlineAppend(x, y);
    assert (x + y)[..i] == x[..i];
    assert (x + y)[i + 1..] == x[i + 1..] + y;
  }

  /** A newline in `x` is found before looking into `y`. */
  lemma {:induction false} FirstNewlineAppend(x: string, y: string)
    requires FirstNewline(x) < |x|
    ensures FirstNewline(x + y) == FirstNewline(x)
    decreases |x|
  {
    if x[0] != '\n' {
      assert (x + y)[1..] == x[1..] + y;
      FirstNewlineAppend(x[1..], y);
    }
  }

  /** The text with its line breaks removed. */
  function StripNewlines(s: string): string
  {
    RemoveAll(s, '\n')
  }

  /** A final line break is stripped like any other. */
  lemma StripFinalNewline(e: string)
    ensures StripNewlines(e + "\n") == StripNewlines(e)
  {
    RemoveAllAppend(e, "\n", '\n');
    assert "\n"[1..] == "";
  }

  /** The lines joined with no separator. */
  function Concat(ls: seq<string>): string
    decreases |ls|
  {
    if |ls| == 0 then "" else ls[0] + Concat(ls[1..])
  }

  /** Joining the lines of `s` gives `s` without its line breaks. */
  lemma {:induction false} ConcatSplitLines(s: string)
    ensures Concat(SplitLines(s)) == StripNewlines(s)
    decreases |s|
  {
    if |s| > 0 {
      var i := FirstNewline(s);
      RemoveAbsent(s[..i], '\n');
      if i == |s| {
        assert s[..i] == s;
      } else {
        assert s == s[..i] + ([s[i]] + s[i + 1..]);
        RemoveAllAppend(s[..i], [s[i]] + s[i + 1..], '\n');
        RemoveAllAppend([s[i]], s[i + 1..], '\n');
        ConcatSplitLines(s[i + 1..]);
      }
    }
  }

  /** The scanner state of `Load`: the records completed so far and the one
      being accumulated (empty before the first header). */
  datatype Scan = Scan(done: seq<string>, cur: string)

  /** One iteration of the loop in `Load`. */
  function Step(st: Scan, t: string): Scan
  {
    if |t| < 1 then st
    else if HasPrefix(t, Header) then
      Scan(if |st.cur| > 0 then st.done + [st.cur] else st.done, t)
    else if |st.cur| > 0 then Scan(st.done, st.cur + t)
    else st
  }

  /** The loop in `Load` over a sequence of lines. */
  function Fold(st: Scan, lines: seq<string>): Scan
    decreases |lines|
  {
    if |lines| == 0 then st else Fold(Step(st, lines[0]), lines[1..])
  }

  /** The final flush of the record being accumulated. */
  function Flush(st: Scan): seq<string>
  {
    if |st.cur| > 0 then st.done + [st.cur] else st.done
  }

  /** The records `Load` builds from the lines of the file. */
  function ParseEntries(lines: seq<string>): seq<string>
  {
    Flush(Fold(Scan([], ""), lines))
  }

  /** `Load`: on success the list is replaced by the parsed records and is
      clean; when the file cannot be opened the list is kept. */
  function Load(b: Backlog, contents: Option<string>): (r: (Backlog, Option<IoError>))
    ensures contents.None? ==> r == (b, Some(OpenFailed))
    ensures contents.Some? ==> r.1 == None && !r.0.dirty
    ensures contents.Some? ==> forall i :: 0 <= i < |r.0.entries| ==> HasPrefix(r.0.entries[i], Header)
  {
    match contents
    case None => (b, Some(OpenFailed))
    case Some(s) =>
      var lines := SplitLines(s);
      ParseStartsWithHeader(lines);
      (Backlog(ParseEntries(lines), false), None)
  }

  /** Every record the scanner has produced, or is accumulating, starts with
      the header. */
  ghost predicate Headed(st: Scan)
  {
    && (forall i :: 0 <= i < |st.done| ==> HasPrefix(st.done[i], Header))
    && (|st.cur| > 0 ==> HasPrefix(st.cur, Header))
  }

  lemma {:induction false} FoldKeepsHeaded(st: Scan, lines: seq<string>)
    requires Headed(st)
    ensures Headed(Fold(st, lines))
    decreases |lines|
  {
    if |lines| > 0 {
      var t := lines[0];
      if |t| > 0 && !HasPrefix(t, Header) && |st.cur| > 0 {
        assert (st.cur + t)[..|Header|] == st.cur[..|Header|];
      }
      FoldKeepsHeaded(Step(st, t), lines[1..]);
    }
  }

  /** Every record `Load` produces starts with the header. */
  lemma ParseStartsWithHeader(lines: seq<string>)
    ensures forall i :: 0 <= i < |ParseEntries(lines)| ==> HasPrefix(ParseEntries(lines)[i], Header)
  {
    FoldKeepsHeaded(Scan([], ""), lines);
  }

  lemma {:induction false} FoldAppend(st: Scan, a: seq<string>, b: seq<string>)
    ensures Fold(st, a + b) == Fold(Fold(st, a), b)
    decreases |a|
  {
    if |a| == 0 {
      assert a + b == b;
    } else {
      assert (a + b)[1..] == a[1..] + b;
      FoldAppend(Step(st, a[0]), a[1..], b);
    }
  }

  /** Empty lines have no effect on `Load`. */
  lemma {:induction false} FoldSkipsEmpty(st: Scan, lines: seq<string>)
    ensures Fold(st, lines) == Fold(st, RemoveAll(lines, ""))
    decreases |lines|
  {
    if |lines| > 0 {
      FoldSkipsEmpty(Step(st, lines[0]), lines[1..]);
      if lines[0] != "" {
        assert RemoveAll(lines, "")[1..] == RemoveAll(lines[1..], "");
      }
    }
  }

  lemma ParseSkipsEmpty(lines: seq<string>)
    ensures ParseEntries(lines) == ParseEntries(RemoveAll(lines, ""))
  {
    FoldSkipsEmpty(Scan([], ""), lines);
  }

  /** None of the lines starts with the header. */
  ghost predicate NoHeaderLines(ls: seq<string>)
  {
    forall i :: 0 <= i < |ls| ==> !HasPrefix(ls[i], Header)
  }

  /** Lines before the first header line leave the scanner untouched. */
  lemma {:induction false} FoldPreamble(done: seq<string>, p: seq<string>)
    requires NoHeaderLines(p)
    ensures Fold(Scan(done, ""), p) == Scan(done, "")
    decreases |p|
  {
    if |p| > 0 {
      FoldPreamble(done, p[1..]);
    }
  }

  /** Lines before the first header line are dropped by `Load`. */
  lemma ParseDropsPreamble(p: seq<string>, rest: seq<string>)
    requires NoHeaderLines(p)
    ensures ParseEntries(p + rest) == ParseEntries(rest)
  {
    FoldAppend(Scan([], ""), p, rest);
    FoldPreamble([], p);
  }

  /** Non-header lines are appended, without separator, to the record being
      accumulated. */
  lemma {:induction false} FoldBody(done: seq<string>, cur: string, ls: seq<string>)
    requires |cur| > 0
    requires NoHeaderLines(ls)
    ensures Fold(Scan(done, cur), ls) == Scan(done, cur + Concat(ls))
    decreases |ls|
  {
    if |ls| > 0 {
      var t := ls[0];
      if |t| < 1 {
        assert t == "";
        FoldBody(done, cur, ls[1..]);
        assert cur + Concat(ls) == cur + Concat(ls[1..]);
      } else {
        FoldBody(done, cur + t, ls[1..]);
        assert cur + t + Concat(ls[1..]) == cur + Concat(ls);
      }
    }
  }

  /** Records completed before a scan are kept in front of those it
      completes. */
  lemma {:induction false} FoldKeepsDone(p: seq<string>, st: Scan, ls: seq<string>)
    ensures Fold(Scan(p + st.done, st.cur), ls)
         == Scan(p + Fold(st, ls).done, Fold(st, ls).cur)
    decreases |ls|
  {
    if |ls| > 0 {
      var t := ls[0];
      var next := Step(st, t);
      if |t| >= 1 && HasPrefix(t, Header) && |st.cur| > 0 {
        assert (p + st.done) + [st.cur] == p + (st.done + [st.cur]);
      }
      assert Step(Scan(p + st.done, st.cur), t) == Scan(p + next.done, next.cur);
      FoldKeepsDone(p, next, ls[1..]);
    }
  }

  /** A header line followed by non-header lines forms one record: the
      lines concatenated; a following header line starts the next one. */
  lemma ParseBlock(h: string, ls: seq<string>, rest: seq<string>)
    requires HasPrefix(h, Header)
    requires NoHeaderLines(ls)
    requires |rest| == 0 || HasPrefix(rest[0], Header)
    ensures ParseEntries([h] + ls + rest) == [h + Concat(ls)] + ParseEntries(rest)
  {
    var block := h + Concat(ls);
    assert Fold(Scan([], ""), [h] + ls + rest) == Fold(Scan([], block), rest) by {
      var lines := [h] + ls + rest;
      assert lines[0] == h && lines[1..] == ls + rest;
      FoldHeader(Scan([], ""), lines);
      FoldAppend(Scan([], h), ls, rest);
      FoldBody([], h, ls);
    }
    if |rest| > 0 {
      NextBlock(block, rest);
    }
  }

  /** A header line completes the record accumulated so far. */
  lemma NextBlock(block: string, rest: seq<string>)
    requires |block| > 0
    requires |rest| > 0 && HasPrefix(rest[0], Header)
    ensures Flush(Fold(Scan([], block), rest)) == [block] + ParseEntries(rest)
  {
    var first := Scan([], rest[0]);
    FoldHeader(Scan([], ""), rest);
    FoldHeader(Scan([], block), rest);
    assert Flush(Scan([], block)) == [block] + first.done;
    FlushKeepsDone([block], first, rest[1..]);
  }

  /** Records completed before a scan stay in front of everything it
      flushes. */
  lemma FlushKeepsDone(p: seq<string>, st: Scan, ls: seq<string>)
    ensures Flush(Fold(Scan(p + st.done, st.cur), ls)) == p + Flush(Fold(st, ls))
  {
    var f := Fold(st, ls);
    FoldKeepsDone(p, st, ls);
    assert p + f.done + [f.cur] == p + (f.done + [f.cur]);
  }

  /** A header line closes the record being accumulated and starts a new
      one. */
  lemma FoldHeader(st: Scan, lines: seq<string>)
    requires |lines| > 0 && HasPrefix(lines[0], Header)
    ensures Fold(st, lines) == Fold(Scan(Flush(st), lines[0]), lines[1..])
  {
  }

  /** An entry the file format can hold up to line breaks: its first line
      starts with the header and no later line does, and it has no carriage
      return for the scanner to drop at a line end. */
  ghost predicate Framed(e: string)
  {
    var ls := SplitLines(e + "\n");
    && '\r' !in e
    && HasPrefix(ls[0], Header)
    && NoHeaderLines(ls[1..])
  }

  /** Each entry with its line breaks removed. */
  function StripAll(es: seq<string>): (r: seq<string>)
    ensures |r| == |es|
    ensures forall i :: 0 <= i < |es| ==> r[i] == StripNewlines(es[i])
  {
    seq(|es|, i requires 0 <= i < |es| => StripNewlines(es[i]))
  }

  /** Every entry is framed. */
  ghost predicate AllFramed(es: seq<string>)
  {
    forall i :: 0 <= i < |es| ==> Framed(es[i])
  }

  /** The lines of a saved list are the lines of its first entry followed
      by the lines of the rest. */
  lemma LinesOfSerialize(es: seq<string>)
    requires |es| > 0
    ensures SplitLines(Serialize(es)) == SplitLines(es[0] + "\n") + SplitLines(Serialize(es[1..]))
  {
    SplitLinesAppend(es[0] + "\n", Serialize(es[1..]));
    assert es[0] + "\n" + Serialize(es[1..]) == Serialize(es);
  }

  /** Saving and loading keeps framed entries, in order and with the same
      multiplicity, but loses their line breaks and empty lines. */
  lemma {:induction false} LoadSavedFramed(es: seq<string>)
    requires AllFramed(es)
    ensures ParseEntries(SplitLines(Serialize(es))) == StripAll(es)
    decreases |es|
  {
    if |es| > 0 {
      FirstSaved(es);
      assert AllFramed(es[1..]);
      LoadSavedFramed(es[1..]);
      StripAllCons(es);
    }
  }

  lemma StripAllCons(es: seq<string>)
    requires |es| > 0
    ensures StripAll(es) == [StripNewlines(es[0])] + StripAll(es[1..])
  {
    assert StripAll(es)[1..] == StripAll(es[1..]);
  }

  /** The first entry of a saved list of framed entries is loaded as that
      entry with its line breaks removed. */
  lemma FirstSaved(es: seq<string>)
    requires |es| > 0 && AllFramed(es)
    ensures ParseEntries(SplitLines(Serialize(es)))
         == [StripNewlines(es[0])] + ParseEntries(SplitLines(Serialize(es[1..])))
  {
    var ls := SplitLines(es[0] + "\n");
    var rest := SplitLines(Serialize(es[1..]));
    RestStartsWithHeader(es);
    FramedLines(es[0]);
    LinesOfSerialize(es);
    ParseBlock(ls[0], ls[1..], rest);
    assert [ls[0]] + ls[1..] == ls;
  }

  /** The first entry of a saved list of framed entries is framed, and the
      lines saved after it start with a header line, if there are any. */
  lemma RestStartsWithHeader(es: seq<string>)
    requires |es| > 0 && AllFramed(es)
    ensures Framed(es[0])
    ensures var rest := SplitLines(Serialize(es[1..]));
            |rest| == 0 || HasPrefix(rest[0], Header)
  {
    if |es| > 1 {
      assert AllFramed(es[1..]);
      SavedStartsWithHeader(es[1..]);
    }
  }

  /** The lines of a framed entry: a header line, then lines without one,
      joining to the entry without its line breaks. */
  lemma FramedLines(e: string)
    requires Framed(e)
    ensures |SplitLines(e + "\n")| > 0
    ensures HasPrefix(SplitLines(e + "\n")[0], Header)
    ensures NoHeaderLines(SplitLines(e + "\n")[1..])
    ensures StripNewlines(e) == SplitLines(e + "\n")[0] + Concat(SplitLines(e + "\n")[1..])
  {
    var ls := SplitLines(e + "\n");
    assert ls[0] + Concat(ls[1..]) == Concat(ls);
    ConcatSplitLines(e + "\n");
    StripFinalNewline(e);
  }

  /** A saved non-empty list of framed entries starts with a header line. */
  lemma SavedStartsWithHeader(es: seq<string>)
    requires |es| > 0 && AllFramed(es)
    ensures |SplitLines(Serialize(es))| > 0
    ensures HasPrefix(SplitLines(Serialize(es))[0], Header)
  {
    assert Framed(es[0]);
    LinesOfSerialize(es);
  }

  /** An entry that starts with the header and has no line break or
      carriage return is framed and is unchanged by stripping. */
  lemma SingleLineFramed(e: string)
    requires HasPrefix(e, Header) && '\n' !in e && '\r' !in e
    ensures Framed(e) && StripNewlines(e) == e
  {
    NoNewlineBefore(e);
    assert (e + "\n")[..|e|] == e;
    assert (e + "\n")[|e| + 1..] == "";
    RemoveAbsent(e, '\n');
  }

  lemma {:induction false} NoNewlineBefore(e: string)
    requires '\n' !in e
    ensures FirstNewline(e + "\n") == |e|
    decreases |e|
  {
    if |e| > 0 {
      assert (e + "\n")[1..] == e[1..] + "\n";
      NoNewlineBefore(e[1..]);
    }
  }

  /** Every entry starts with the header and has no line break or carriage
      return. */
  ghost predicate SingleLineRecords(es: seq<string>)
  {
    forall i :: 0 <= i < |es| ==> HasPrefix(es[i], Header) && '\n' !in es[i] && '\r' !in es[i]
  }

  /** Round trip: single-line entries that start with the header come back
      exactly, and the loaded list is clean. */
  lemma LoadSave(b: Backlog, es: seq<string>)
    requires SingleLineRecords(es)
    ensures Load(b, Some(Serialize(es))) == (Backlog(es, false), None)
  {
    forall i | 0 <= i < |es|
      ensures Framed(es[i]) && StripNewlines(es[i]) == es[i]
    {
      SingleLineFramed(es[i]);
    }
    LoadSavedFramed(es);
    assert StripAll(es) == es;
  }
}
