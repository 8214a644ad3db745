/**
 * The parts of java.lang.String that the event service relies on:
 * `trim()`, `split(String)` with a one-character separator, and
 * `Collectors.joining(String)`.
 */
module JavaText {

  /** `String.trim()` removes every character whose code is at most U+0020. */
  predicate IsTrimmable(c: char) {
    c <= ' '
  }

  /** Drops the trimmable characters at the front of `s`. */
  function TrimStart(s: string): (r: string)
    ensures |r| <= |s|
    ensures r == [] || !IsTrimmable(r[0])
  {
    if s != [] && IsTrimmable(s[0]) then TrimStart(s[1..]) else s
  }

  /** Drops the trimmable characters at the back of `s`. */
  function TrimEnd(s: string): (r: string)
    ensures |r| <= |s|
    ensures r == [] || !IsTrimmable(r[|r| - 1])
  {
    if s != [] && IsTrimmable(s[|s| - 1]) then TrimEnd(s[..|s| - 1]) else s
  }

  /** `String.trim()`: the longest substring that neither starts nor ends with a trimmable character. */
  function Trim(s: string): (r: string)
    ensures r == [] || (!IsTrimmable(r[0]) && !IsTrimmable(r[|r| - 1]))
    ensures (s == [] || (!IsTrimmable(s[0]) && !IsTrimmable(s[|s| - 1]))) ==> r == s
  {
    TrimEndDrops(TrimStart(s));
    TrimEnd(TrimStart(s))
  }

  /** `TrimStart` keeps a suffix of `s` and drops only trimmable characters. */
  lemma {:induction false} TrimStartDrops(s: string)
    ensures var r := TrimStart(s);
      && r == s[|s| - |r|..]
      && forall i :: 0 <= i < |s| - |r| ==> IsTrimmable(s[i])
  {
    if s != [] && IsTrimmable(s[0]) {
      TrimStartDrops(s[1..]);
      var r := TrimStart(s);
      forall i | 1 <= i < |s| - |r|
        ensures IsTrimmable(s[i])
      {
        assert s[1..][i - 1] == s[i];
      }
    }
  }

  /** `TrimEnd` keeps a prefix of `s` and drops only trimmable characters. */
  lemma {:induction false} TrimEndDrops(s: string)
    ensures var r := TrimEnd(s);
      && r == s[..|r|]
      && forall i :: |r| <= i < |s| ==> IsTrimmable(s[i])
  {
    if s != [] && IsTrimmable(s[|s| - 1]) {
      TrimEndDrops(s[..|s| - 1]);
      var r := TrimEnd(s);
      forall i | |r| <= i < |s| - 1
        ensures IsTrimmable(s[i])
      {
        assert s[..|s| - 1][i] == s[i];
      }
    }
  }

  /**
   * `Trim(s)` is the slice of `s` left after dropping `start` characters
   * at the front and some at the back, every dropped character trimmable.
   */
  lemma TrimIsSlice(s: string)
    ensures var r, start := Trim(s), |s| - |TrimStart(s)|;
      && start + |r| <= |s|
      && r == s[start..start + |r|]
      && (forall i :: 0 <= i < start ==> IsTrimmable(s[i]))
      && (forall i :: start + |r| <= i < |s| ==> IsTrimmable(s[i]))
  {
    var t := TrimStart(s);
    TrimStartDrops(s);
    TrimEndDrops(t);
    var r := TrimEnd(t);
    var start := |s| - |t|;
    assert t == s[start..];
    assert r == t[..|r|] == s[start..start + |r|];
    forall i | start + |r| <= i < |s|
      ensures IsTrimmable(s[i])
    {
      assert s[i] == t[i - start];
    }
  }

  lemma TrimIdempotent(s: string)
    ensures Trim(Trim(s)) == Trim(s)
  {
  }

  /** Every piece of `s` between occurrences of `sep`, empty pieces included. */
  function SplitAll(s: string, sep: char): (parts: seq<string>)
    ensures |parts| >= 1
  {
    if s == [] then [[]]
    else
      var rest := SplitAll(s[1..], sep);
      if s[0] == sep then [[]] + rest
      else [[s[0]] + rest[0]] + rest[1..]
  }

  /** No piece holds the separator, and text without it is a single piece. */
  lemma {:induction false} SplitAllPieces(s: string, sep: char)
    ensures forall p :: p in SplitAll(s, sep) ==> sep !in p
    ensures sep !in s ==> SplitAll(s, sep) == [s]
  {
    if s != [] {
      var rest := SplitAll(s[1..], sep);
      SplitAllPieces(s[1..], sep);
      if s[0] != sep {
        assert sep !in rest[0];
        assert sep !in s ==> [s[0]] + s[1..] == s;
        forall p | p in SplitAll(s, sep)
          ensures sep !in p
        {
          if p != [s[0]] + rest[0] {
            assert p in rest[1..];
          }
        }
      }
    }
  }

  /** The pieces glued back together with `sep` between them. */
  function Join(parts: seq<string>, sep: string): string {
    if parts == [] then []
    else if |parts| == 1 then parts[0]
    else parts[0] + sep + Join(parts[1..], sep)
  }

  /** Splitting and re-joining on the same separator gives back the text. */
  lemma {:induction false} JoinSplitAll(s: string, sep: char)
    ensures Join(SplitAll(s, sep), [sep]) == s
  {
    if s != [] {
      var rest := SplitAll(s[1..], sep);
      JoinSplitAll(s[1..], sep);
      assert s == [s[0]] + s[1..];
      if s[0] == sep {
        JoinEmptyHead(rest, [sep]);
      } else {
        JoinGrowHead(s[0], rest, [sep]);
      }
    }
  }

  /** An empty first piece contributes only the separator after it. */
  lemma JoinEmptyHead(parts: seq<string>, sep: string)
    requires |parts| >= 1
    ensures Join([[]] + parts, sep) == sep + Join(parts, sep)
  {
    assert ([[]] + parts)[1..] == parts;
  }

  /** A character put in front of the first piece comes out in front of the joined text. */
  lemma JoinGrowHead(c: char, parts: seq<string>, sep: string)
    requires |parts| >= 1
    ensures Join([[c] + parts[0]] + parts[1..], sep) == [c] + Join(parts, sep)
  {
    var grown := [[c] + parts[0]] + parts[1..];
    if |parts| > 1 {
      assert grown[1..] == parts[1..];
      assert [c] + parts[0] + sep + Join(parts[1..], sep) == [c] + (parts[0] + sep + Join(parts[1..], sep));
    }
  }

  /** Every piece with `c` put in front of it. */
  function Prefixed(parts: seq<string>, c: char): (r: seq<string>)
    ensures |r| == |parts| && forall i :: 0 <= i < |parts| ==> r[i] == [c] + parts[i]
  {
    if parts == [] then [] else [[c] + parts[0]] + Prefixed(parts[1..], c)
  }

  /**
   * Joining with the two-character separator `a b` is joining with `a`
   * alone once `b` is moved to the front of every piece after the first.
   */
  lemma {:induction false} JoinSecondChar(parts: seq<string>, a: char, b: char)
    requires |parts| >= 1
    ensures Join(parts, [a, b]) == Join([parts[0]] + Prefixed(parts[1..], b), [a])
  {
    if |parts| > 1 {
      var tail := parts[1..];
      JoinSecondChar(tail, a, b);
      var shifted := [tail[0]] + Prefixed(tail[1..], b);
      assert tail[1..] == parts[2..];
      JoinGrowHead(b, shifted, [a]);
      assert [[b] + shifted[0]] + shifted[1..] == Prefixed(tail, b);
      var whole := [parts[0]] + Prefixed(tail, b);
      assert whole[1..] == Prefixed(tail, b);
      assert Join(whole, [a]) == parts[0] + [a] + Join(Prefixed(tail, b), [a]);
      assert Join(parts, [a, b]) == parts[0] + [a, b] + Join(tail, [a, b]);
    }
  }

  /** Joining pieces free of `sep` and splitting again gives back the pieces. */
  lemma {:induction false} SplitAllJoin(parts: seq<string>, sep: char)
    requires |parts| >= 1
    requires forall i :: 0 <= i < |parts| ==> sep !in parts[i]
    ensures SplitAll(Join(parts, [sep]), sep) == parts
  {
    if |parts| == 1 {
      assert sep !in Join(parts, [sep]);
      SplitAllPieces(Join(parts, [sep]), sep);
    } else {
      SplitAllJoin(parts[1..], sep);
      SplitAllPrefix(parts[0], Join(parts[1..], [sep]), sep);
      assert Join(parts, [sep]) == parts[0] + [sep] + Join(parts[1..], [sep]);
    }
  }

  /** Splitting `head + sep + tail` when `head` holds no separator. */
  lemma {:induction false} SplitAllPrefix(head: string, tail: string, sep: char)
    requires sep !in head
    ensures SplitAll(head + [sep] + tail, sep) == [head] + SplitAll(tail, sep)
  {
    if head == [] {
      assert head + [sep] + tail == [sep] + tail;
      assert ([sep] + tail)[1..] == tail;
    } else {
      var t := head + [sep] + tail;
      SplitAllPrefix(head[1..], tail, sep);
      assert t[0] == head[0] && t[1..] == head[1..] + [sep] + tail;
      var rest := SplitAll(t[1..], sep);
      assert rest == [head[1..]] + SplitAll(tail, sep);
      assert rest[0] == head[1..] && rest[1..] == SplitAll(tail, sep);
      assert [head[0]] + head[1..] == head;
    }
  }

  /** The longest prefix of `parts` that does not end in an empty string. */
  function DropTrailingEmpty(parts: seq<string>): (r: seq<string>)
    ensures |r| <= |parts|
    ensures r == [] || r[|r| - 1] != []
  {
    if parts != [] && parts[|parts| - 1] == [] then DropTrailingEmpty(parts[..|parts| - 1]) else parts
  }

  /** `DropTrailingEmpty` keeps a prefix of `parts` and drops only empty strings. */
  lemma {:induction false} DropTrailingEmptyDrops(parts: seq<string>)
    ensures var r := DropTrailingEmpty(parts);
      && r == parts[..|r|]
      && forall i :: |r| <= i < |parts| ==> parts[i] == []
  {
    if parts != [] && parts[|parts| - 1] == [] {
      var init := parts[..|parts| - 1];
      DropTrailingEmptyDrops(init);
      var r := DropTrailingEmpty(parts);
      forall i | |r| <= i < |parts| - 1
        ensures parts[i] == []
      {
        assert init[i] == parts[i];
      }
    }
  }

  /**
   * `s.split(sep)` for a one-character separator: with no occurrence of
   * the separator it is `[s]` (even for the empty string); otherwise every
   * piece in order, with the empty pieces at the end removed.
   */
  function JavaSplit(s: string, sep: char): (parts: seq<string>)
  {
    if sep !in s then [s] else DropTrailingEmpty(SplitAll(s, sep))
  }

  /** What `split` keeps: pieces free of the separator, in order, followed in the text only by separators. */
  lemma JavaSplitPieces(s: string, sep: char)
    ensures |JavaSplit(s, sep)| <= |SplitAll(s, sep)|
    ensures JavaSplit(s, sep) == SplitAll(s, sep)[..|JavaSplit(s, sep)|]
    ensures forall i :: 0 <= i < |JavaSplit(s, sep)| ==> sep !in JavaSplit(s, sep)[i]
    ensures sep in s ==> JavaSplit(s, sep) == [] || JavaSplit(s, sep)[|JavaSplit(s, sep)| - 1] != []
    ensures forall i :: |JavaSplit(s, sep)| <= i < |SplitAll(s, sep)| ==> SplitAll(s, sep)[i] == []
  {
    DropTrailingEmptyDrops(SplitAll(s, sep));
    SplitAllPieces(s, sep);
  }

  /** Pieces free of the separator, the last one not empty, survive a join and a `split`. */
  lemma JavaSplitJoin(parts: seq<string>, sep: char)
    requires |parts| >= 1 && parts[|parts| - 1] != []
    requires forall i :: 0 <= i < |parts| ==> sep !in parts[i]
    ensures JavaSplit(Join(parts, [sep]), sep) == parts
  {
    SplitAllJoin(parts, sep);
  }
}
