/** The string operations the session relies on, with the meaning they have
    in the original program: splitting on one separator character, splitting
    on runs of whitespace, and finding a substring. */
module Text {

  // ---------------------------------------------------------------------
  // Splitting on one separator character

  /** The position of the first occurrence of `c` in `s`. */
  function FirstIndex(s: string, c: char): (i: nat)
    requires c in s
    ensures i < |s| && s[i] == c && c !in s[..i]
  {
    if s[0] == c then 0 else 1 + FirstIndex(s[1..], c)
  }

  /** The text of `s` before the first `c`, or all of `s` when it has none. */
  function UpTo(s: string, c: char): (r: string)
    ensures c !in r && r <= s
    ensures c in s ==> |r| < |s| && s[|r|] == c
  {
    if c in s then s[..FirstIndex(s, c)] else s
  }

  /** The segments of `s` between occurrences of `sep`, as a one-character
      separator split does it: always at least one segment, empty ones kept. */
  function Split(s: string, sep: char): (parts: seq<string>)
    ensures |parts| >= 1
    ensures forall i :: 0 <= i < |parts| ==> sep !in parts[i]
  {
    if |s| == 0 then [""]
    else
      var rest := Split(s[1..], sep);
      if s[0] == sep then [""] + rest
      else [[s[0]] + rest[0]] + rest[1..]
  }

  /** The segments put back together with `sep` between them. */
  function Join(parts: seq<string>, sep: char): string
    requires |parts| >= 1
  {
    if |parts| == 1 then parts[0] else parts[0] + [sep] + Join(parts[1..], sep)
  }

  /** Splitting loses nothing: joining the segments gives back the text. */
  lemma {:induction false} JoinSplit(s: string, sep: char)
    ensures Join(Split(s, sep), sep) == s
  {
    if |s| > 0 {
      var rest := Split(s[1..], sep);
      JoinSplit(s[1..], sep);
      if s[0] == sep {
        assert Split(s, sep)[1..] == rest;
      } else if |rest| > 1 {
        var parts := Split(s, sep);
        assert parts[1..] == rest[1..];
        assert Join(rest, sep) == rest[0] + [sep] + Join(rest[1..], sep);
        assert s == [s[0]] + s[1..];
      } else {
        assert s == [s[0]] + s[1..];
      }
    }
  }

  /** A text without the separator is a single segment. */
  lemma {:induction false} SplitWithout(a: string, sep: char)
    requires sep !in a
    ensures Split(a, sep) == [a]
  {
    if |a| > 0 {
      assert sep !in a[1..];
      SplitWithout(a[1..], sep);
      assert [a[0]] + a[1..] == a;
    }
  }

  /** A separator-free prefix followed by the separator is the first segment. */
  lemma {:induction false} SplitAfter(a: string, sep: char, b: string)
    requires sep !in a
    ensures Split(a + [sep] + b, sep) == [a] + Split(b, sep)
  {
    if |a| == 0 {
      assert a + [sep] + b == [sep] + b;
      assert ([sep] + b)[1..] == b;
    } else {
      assert sep !in a[1..];
      SplitAfter(a[1..], sep, b);
      assert (a + [sep] + b)[1..] == a[1..] + [sep] + b;
      assert [a[0]] + a[1..] == a;
    }
  }

  /** The first segment is the text before the first separator, and the
      remaining segments are those of the text after it. */
  lemma SplitFirst(s: string, sep: char)
    ensures Split(s, sep)[0] == UpTo(s, sep)
    ensures sep in s ==> Split(s, sep) == [UpTo(s, sep)] + Split(s[FirstIndex(s, sep) + 1..], sep)
  {
    if sep in s {
      var i := FirstIndex(s, sep);
      var a, b := s[..i], s[i + 1..];
      assert s == a + [sep] + b;
      assert UpTo(s, sep) == a;
      SplitAfter(a, sep, b);
    } else {
      SplitWithout(s, sep);
      assert UpTo(s, sep) == s;
    }
  }

  /** Joining separator-free segments and splitting again gives the segments back. */
  lemma {:induction false} SplitJoin(parts: seq<string>, sep: char)
    requires |parts| >= 1
    requires forall i :: 0 <= i < |parts| ==> sep !in parts[i]
    ensures Split(Join(parts, sep), sep) == parts
  {
    if |parts| == 1 {
      SplitWithout(parts[0], sep);
    } else {
      SplitJoin(parts[1..], sep);
      SplitAfter(parts[0], sep, Join(parts[1..], sep));
      assert [parts[0]] + parts[1..] == parts;
    }
  }

  // ---------------------------------------------------------------------
  // Splitting on runs of whitespace

  /** The ASCII whitespace characters. */
  predicate IsSpace(c: char)
  {
    c == ' ' || c == '\t' || c == '\n' || c == '\r' || c == '\U{0B}' || c == '\U{0C}'
  }

  predicate NoSpace(w: string)
  {
    forall i :: 0 <= i < |w| ==> !IsSpace(w[i])
  }

  /** The length of the run of non-whitespace that starts `s`. */
  function WordLen(s: string): (n: nat)
    ensures n <= |s| && NoSpace(s[..n])
    ensures n < |s| ==> IsSpace(s[n])
  {
    if |s| == 0 || IsSpace(s[0]) then 0 else 1 + WordLen(s[1..])
  }

  /** The words of `s`: maximal runs of non-whitespace, in order; leading,
      trailing and repeated whitespace produce no empty words. */
  function Words(s: string): (ws: seq<string>)
    ensures forall i :: 0 <= i < |ws| ==> ws[i] != [] && NoSpace(ws[i])
    decreases |s|
  {
    if |s| == 0 then []
    else if IsSpace(s[0]) then Words(s[1..])
    else
      var n := WordLen(s);
      [s[..n]] + Words(s[n..])
  }

  /** Words joined by single spaces. */
  function Unwords(ws: seq<string>): string
  {
    if ws == [] then "" else if |ws| == 1 then ws[0] else ws[0] + " " + Unwords(ws[1..])
  }

  lemma {:induction false} WordLenOf(w: string, tail: string)
    requires NoSpace(w)
    requires tail == [] || IsSpace(tail[0])
    ensures WordLen(w + tail) == |w|
  {
    if |w| > 0 {
      assert (w + tail)[1..] == w[1..] + tail;
      WordLenOf(w[1..], tail);
    }
  }

  /** Whitespace in front of a text adds no word: leading, trailing and
      repeated whitespace of any kind is skipped. */
  lemma {:induction false} WordsSkipSpace(w: string, s: string)
    requires forall i :: 0 <= i < |w| ==> IsSpace(w[i])
    ensures Words(w + s) == Words(s)
  {
    if |w| > 0 {
      assert (w + s)[0] == w[0] && (w + s)[1..] == w[1..] + s;
      WordsSkipSpace(w[1..], s);
    } else {
      assert w + s == s;
    }
  }

  /** A non-empty run of non-whitespace that ends at whitespace or at the
      end of the text is the text's first word, whole; the words after it
      are the words of the rest. Together with `WordsSkipSpace` and
      `Words("") == []` this fixes the words of every text. */
  lemma WordsTakeWord(a: string, s: string)
    requires a != [] && NoSpace(a)
    requires s == [] || IsSpace(s[0])
    ensures Words(a + s) == [a] + Words(s)
  {
    WordLenOf(a, s);
    assert (a + s)[..|a|] == a && (a + s)[|a|..] == s;
  }

  /** Non-empty words without whitespace survive a join and a split unchanged. */
  lemma {:induction false} WordsUnwords(ws: seq<string>)
    requires forall i :: 0 <= i < |ws| ==> ws[i] != [] && NoSpace(ws[i])
    ensures Words(Unwords(ws)) == ws
  {
    if ws != [] {
      var w := ws[0];
      var tail := if |ws| == 1 then "" else " " + Unwords(ws[1..]);
      assert Unwords(ws) == w + tail;
      WordLenOf(w, tail);
      assert (w + tail)[..|w|] == w && (w + tail)[|w|..] == tail;
      if |ws| == 1 {
        assert Words(tail) == [];
      } else {
        WordsUnwords(ws[1..]);
        assert tail[1..] == Unwords(ws[1..]);
        assert Words(tail) == Words(tail[1..]);
      }
      assert [w] + ws[1..] == ws;
    }
  }

  // ---------------------------------------------------------------------
  // Substring search

  /** `t` occurs in `s` starting at position `i`. */
  predicate OccursAt(s: string, t: string, i: nat)
  {
    i + |t| <= |s| && s[i..i + |t|] == t
  }

  /** The first position at or after `i` where `t` occurs in `s`, or -1. */
  function FindFrom(s: string, t: string, i: nat): (r: int)
    requires i <= |s|
    ensures r == -1 || (i <= r && OccursAt(s, t, r))
    ensures forall j: nat :: i <= j && (r == -1 || j < r) ==> !OccursAt(s, t, j)
    decreases |s| - i
  {
    if OccursAt(s, t, i) then i
    else if i == |s| then -1
    else FindFrom(s, t, i + 1)
  }

  /** The lowest position where `t` occurs in `s`, or -1 when it does not occur. */
  function Find(s: string, t: string): (r: int)
    ensures r >= 0 <==> exists j: nat :: OccursAt(s, t, j)
    ensures r >= 0 ==> OccursAt(s, t, r) && forall j: nat :: j < r ==> !OccursAt(s, t, j)
  {
    FindFrom(s, t, 0)
  }
}
