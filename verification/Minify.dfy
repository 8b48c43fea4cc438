/** cJSON_Minify. */
module Minify {
  import opened Bytes
  import opened Items

  const STAR: byte := 42

  /** What is left behind a line comment, and behind a block comment. */
  function AfterLine(s: bytes): (r: bytes)
    ensures |r| <= |s|
  {
    if s == [] then [] else if s[0] == NEWLINE then s[1..] else AfterLine(s[1..])
  }

  function AfterBlock(s: bytes): (r: bytes)
    ensures |r| <= |s|
  {
    if s == [] then []
    else if s[0] == STAR && |s| > 1 && s[1] == SLASH then s[2..]
    else AfterBlock(s[1..])
  }

  /** What minifying leaves of a text, between strings. */
  function Outside(s: bytes): (r: bytes)
    ensures |r| <= |s|
    decreases |s|
  {
    if s == [] then []
    else if IsSpace(s[0]) then Outside(s[1..])
    else if s[0] == SLASH then
      if |s| > 1 && s[1] == SLASH then Outside(AfterLine(s[2..]))
      else if |s| > 1 && s[1] == STAR then Outside(AfterBlock(s[2..]))
      else Outside(s[1..])
    else if s[0] == QUOTE then [QUOTE] + Inside(s[1..])
    else [s[0]] + Outside(s[1..])
  }

  /** And within one. A quote counts as escaped when the byte before it is a backslash. */
  function Inside(s: bytes): (r: bytes)
    ensures |r| <= |s|
    decreases |s|
  {
    if s == [] then []
    else if s[0] == QUOTE then [QUOTE] + Outside(s[1..])
    else if s[0] == BACKSLASH && |s| > 1 && s[1] == QUOTE then [BACKSLASH, QUOTE] + Inside(s[2..])
    else [s[0]] + Inside(s[1..])
  }

  // ----- in place

  /** skip_oneline_comment. */
  method SkipOnelineComment(a: array<byte>, start: nat, ghost n: nat) returns (i: nat)
    requires start + 2 <= n < a.Length && a[n] == NUL && forall k :: start <= k < n ==> a[k] != NUL
    ensures start < i <= n && a[i..n] == AfterLine(a[start + 2..n])
  {
    i := start + 2;
    while a[i] != NUL
      invariant start + 2 <= i <= n && AfterLine(a[i..n]) == AfterLine(a[start + 2..n])
      decreases n - i
    {
      assert a[i..n][1..] == a[i + 1..n];
      if a[i] == NEWLINE {
        return i + 1;
      }
      i := i + 1;
    }
  }

  /** skip_multiline_comment. */
  method SkipMultilineComment(a: array<byte>, start: nat, ghost n: nat) returns (i: nat)
    requires start + 2 <= n < a.Length && a[n] == NUL && forall k :: start <= k < n ==> a[k] != NUL
    ensures start < i <= n && a[i..n] == AfterBlock(a[start + 2..n])
  {
    i := start + 2;
    while a[i] != NUL
      invariant start + 2 <= i <= n && AfterBlock(a[i..n]) == AfterBlock(a[start + 2..n])
      decreases n - i
    {
      assert a[i..n][1..] == a[i + 1..n];
      if a[i] == STAR && a[i + 1] == SLASH {
        assert a[i..n][2..] == a[i + 2..n];
        return i + 2;
      }
      i := i + 1;
    }
  }

  /** What is left of the text in was[i..n]. */
  ghost function InsideFrom(was: bytes, i: nat, n: nat): bytes
    requires i <= n <= |was|
  {
    Inside(was[i..n])
  }

  ghost function OutsideFrom(was: bytes, i: nat, n: nat): bytes
    requires i <= n <= |was|
  {
    Outside(was[i..n])
  }

  lemma InsideSteps(was: bytes, i: nat, n: nat)
    requires i < n < |was| && was[n] == NUL
    ensures was[i] == QUOTE ==> InsideFrom(was, i, n) == [QUOTE] + OutsideFrom(was, i + 1, n)
    ensures was[i] == BACKSLASH && was[i + 1] == QUOTE ==>
      i + 2 <= n && InsideFrom(was, i, n) == [BACKSLASH, QUOTE] + InsideFrom(was, i + 2, n)
    ensures was[i] != QUOTE && !(was[i] == BACKSLASH && was[i + 1] == QUOTE) ==>
      InsideFrom(was, i, n) == [was[i]] + InsideFrom(was, i + 1, n)
  {
    assert was[i..n][1..] == was[i + 1..n];
    if i + 2 <= n {
      assert was[i..n][2..] == was[i + 2..n];
    }
  }

  lemma OutsideSteps(was: bytes, i: nat, n: nat)
    requires i < n < |was| && was[n] == NUL
    ensures IsSpace(was[i]) || (was[i] == SLASH && was[i + 1] != SLASH && was[i + 1] != STAR) ==>
      OutsideFrom(was, i, n) == OutsideFrom(was, i + 1, n)
    ensures was[i] == QUOTE ==> OutsideFrom(was, i, n) == [QUOTE] + InsideFrom(was, i + 1, n)
    ensures !IsSpace(was[i]) && was[i] != SLASH && was[i] != QUOTE ==>
      OutsideFrom(was, i, n) == [was[i]] + OutsideFrom(was, i + 1, n)
  {
    assert was[i..n][1..] == was[i + 1..n];
  }

  lemma MovedTwo(done: bytes, x: byte, y: byte, left: bytes, left': bytes)
    requires left == [x, y] + left'
    ensures done + [x] + [y] + left' == done + left
  {
    assert [x] + ([y] + left') == [x, y] + left';
  }

  /** The array holds `done` in front, and from `into` on what `was` held. */
  ghost predicate Compacting(a: array<byte>, was: bytes, into: nat, done: bytes)
    reads a
  {
    |was| == a.Length && into <= a.Length && a[..into] == done && a[into..] == was[into..]
  }

  method Store(a: array<byte>, into: nat, b: byte, ghost was: bytes, ghost done: bytes)
    requires Compacting(a, was, into, done) && into < a.Length
    modifies a
    ensures Compacting(a, was, into + 1, done + [b])
  {
    a[into] := b;
    assert a[into + 1..] == was[into..][1..];
  }

  lemma Reading(a: array<byte>, was: bytes, into: nat, done: bytes, json: nat)
    requires Compacting(a, was, into, done) && into <= json < a.Length
    ensures a[json] == was[json]
  {
    assert a[into..][json - into] == a[json] && was[into..][json - into] == was[json];
  }

  /** One round of minify_string: a byte, or a backslash with the quote behind it. */
  method CopyInside(a: array<byte>, from: nat, to: nat, ghost n: nat, ghost was: bytes, ghost before: bytes)
    returns (json: nat, into: nat, closed: bool, ghost done: bytes)
    requires Compacting(a, was, to, before) && to <= from < n < |was| == a.Length && was[n] == NUL && was[from] != NUL
    requires a[from] == was[from]
    modifies a
    ensures from < json <= n && into <= json && Compacting(a, was, into, done)
    ensures before + InsideFrom(was, from, n) ==
      done + if closed then OutsideFrom(was, json, n) else InsideFrom(was, json, n)
  {
    hide OutsideFrom, InsideFrom, Outside, Inside, Compacting;
    InsideSteps(was, from, n);
    var c := a[from];
    Store(a, to, c, was, before);
    Reading(a, was, to + 1, before + [c], from + 1);
    json, into, done, closed := from + 1, to + 1, before + [c], c == QUOTE;
    if c == BACKSLASH && a[from + 1] == QUOTE {
      Store(a, to + 1, a[from + 1], was, before + [c]);
      MovedTwo(before, c, QUOTE, InsideFrom(was, from, n), InsideFrom(was, from + 2, n));
      json, into, done := from + 2, to + 2, before + [c] + [QUOTE];
    } else if closed {
      Moved(before, [c], done, InsideFrom(was, from, n), OutsideFrom(was, json, n));
    } else {
      Moved(before, [c], done, InsideFrom(was, from, n), InsideFrom(was, json, n));
    }
  }

  /** minify_string: copies a string down, up to and with its closing quote. */
  method MinifyString(a: array<byte>, from: nat, to: nat, ghost n: nat, ghost was: bytes, ghost before: bytes)
    returns (json: nat, into: nat, ghost done: bytes)
    requires Compacting(a, was, to, before) && to <= from < n < |was| == a.Length && was[n] == NUL && was[from] == QUOTE
    requires forall k :: 0 <= k < n ==> was[k] != NUL
    modifies a
    ensures from < json <= n && into <= json && Compacting(a, was, into, done)
    ensures done + OutsideFrom(was, json, n) == before + ([QUOTE] + InsideFrom(was, from + 1, n))
  {
    hide OutsideFrom, InsideFrom, Outside, Inside, Compacting;
    Reading(a, was, to, before, from);
    Store(a, to, a[from], was, before);
    json, into, done := from + 1, to + 1, before + [QUOTE];
    ghost var whole := before + ([QUOTE] + InsideFrom(was, from + 1, n));
    Moved(before, [QUOTE], done, [QUOTE] + InsideFrom(was, from + 1, n), InsideFrom(was, from + 1, n));
    Reading(a, was, into, done, json);
    var closed := false;
    while !closed && a[json] != NUL
      invariant from < json <= n && into <= json && Compacting(a, was, into, done)
      invariant a[json] == was[json]
      invariant done + (if closed then OutsideFrom(was, json, n) else InsideFrom(was, json, n)) == whole
      decreases n - json
    {
      json, into, closed, done := CopyInside(a, json, into, n, was, done);
      Reading(a, was, into, done, json);
    }
    ScanEnds(was, n);
  }

  lemma Alike(a: array<byte>, was: bytes, into: nat, done: bytes, n: nat)
    requires Compacting(a, was, into, done) && n < |was|
    ensures a.Length == |was| && forall k :: into <= k < a.Length ==> a[k] == was[k]
    ensures forall k :: into <= k <= n ==> a[k..n] == was[k..n]
  {
    forall k | into <= k < a.Length ensures a[k] == was[k] {
      Reading(a, was, into, done, k);
    }
  }

  lemma Unread(a: array<byte>)
    ensures Compacting(a, a[..], 0, [])
  {
  }

  method Terminate(a: array<byte>, into: nat, ghost was: bytes, ghost done: bytes)
    requires Compacting(a, was, into, done) && into < a.Length
    modifies a
    ensures |done| < |was| && a[..] == done + [NUL] + was[|done| + 1..]
  {
    Store(a, into, NUL, was, done);
    assert a[..] == a[..into + 1] + a[into + 1..];
  }

  lemma ScanEnds(was: bytes, n: nat)
    requires n <= |was|
    ensures InsideFrom(was, n, n) == [] && OutsideFrom(was, n, n) == []
  {
  }

  ghost function Storage(a: array?<byte>): set<object> {
    if a == null then {} else {a}
  }

  lemma WholeText(was: bytes)
    ensures OutsideFrom(was, 0, |Bytes.CString(was)|) == Outside(Bytes.CString(was))
  {
    assert was[0..|Bytes.CString(was)|] == Bytes.CString(was);
  }

  /** The two kinds of comment. */
  method SkipComment(a: array<byte>, start: nat, ghost n: nat, ghost was: bytes, ghost into: nat, ghost done: bytes)
    returns (i: nat)
    requires Compacting(a, was, into, done) && into <= start && start + 1 < |was| && n < |was|
    requires start < n && was[n] == NUL && was[start] == SLASH && (was[start + 1] == SLASH || was[start + 1] == STAR)
    requires forall k :: 0 <= k < n ==> was[k] != NUL
    requires a[start + 1] == was[start + 1]
    ensures start < i <= n && OutsideFrom(was, i, n) == OutsideFrom(was, start, n)
  {
    hide Inside, AfterLine, AfterBlock;
    Alike(a, was, into, done, n);
    assert was[start..n][2..] == was[start + 2..n] == a[start + 2..n];
    if a[start + 1] == SLASH {
      i := SkipOnelineComment(a, start, n);
    } else {
      i := SkipMultilineComment(a, start, n);
    }
    assert was[i..n] == a[i..n];
  }

  /** One round of the loop of cJSON_Minify, by the next byte. */
  method MinifyRound(a: array<byte>, from: nat, to: nat, ghost n: nat, ghost was: bytes, ghost before: bytes)
    returns (json: nat, into: nat, ghost done: bytes)
    requires Compacting(a, was, to, before) && to <= from < n < |was| == a.Length && was[n] == NUL
    requires a[from] == was[from] && forall k :: 0 <= k < n ==> was[k] != NUL
    modifies a
    ensures from < json <= n && into <= json && Compacting(a, was, into, done)
    ensures done + OutsideFrom(was, json, n) == before + OutsideFrom(was, from, n)
  {
    hide OutsideFrom, InsideFrom, Outside, Inside, Compacting;
    json, into, done := from, to, before;
    OutsideSteps(was, json, n);
    Reading(a, was, into, done, json + 1);
    if IsSpace(a[json]) {
      json := json + 1;
    } else if a[json] == SLASH {
      if a[json + 1] == SLASH || a[json + 1] == STAR {
        json := SkipComment(a, json, n, was, into, done);
      } else {
        json := json + 1;
      }
    } else if a[json] == QUOTE {
      json, into, done := MinifyString(a, json, into, n, was, done);
    } else {
      var c := a[json];
      Store(a, into, c, was, done);
      Moved(done, [c], done + [c], OutsideFrom(was, json, n), OutsideFrom(was, json + 1, n));
      json, into, done := json + 1, into + 1, done + [c];
    }
  }

  /**
   * cJSON_Minify. The write pointer never passes the read pointer, so the text
   * is read as it was; behind the new terminator nothing changes.
   */
  method MinifyInPlace(a: array?<byte>)
    requires a != null ==> NUL in a[..]
    modifies Storage(a)
    ensures a != null ==>
      var r := Outside(Bytes.CString(old(a[..])));
      |r| < a.Length && a[..] == r + [NUL] + old(a[|r| + 1..])
  {
    hide OutsideFrom, InsideFrom, Outside, Inside, Compacting, Bytes.CString, NulFree;
    if a == null {
      return;
    }
    ghost var was, n := a[..], |Bytes.CString(a[..])|;
    ghost var done: bytes := [];
    CStringEnds(was);
    Unread(a);
    var json: nat, into: nat := 0, 0;
    WholeText(was);
    Reading(a, was, into, done, json);
    while a[json] != NUL
      invariant into <= json <= n < |was| == a.Length && Compacting(a, was, into, done) && a[json] == was[json]
      invariant done + OutsideFrom(was, json, n) == Outside(Bytes.CString(was))
      decreases n - json
    {
      json, into, done := MinifyRound(a, json, into, n, was, done);
      Reading(a, was, into, done, json);
    }
    ScanEnds(was, n);
    Terminate(a, into, was, done);
  }
}
