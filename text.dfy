/**
 * The JavaScript string operations the page relies on, as functions on
 * `seq<char>`: `String.prototype.split` with a string separator,
 * `String.prototype.trim` and `String.prototype.startsWith`.
 */
module Text {

  /** `s.startsWith(p)`: `p` is a prefix of `s`. */
  predicate StartsWith(s: string, p: string) {
    p <= s
  }

  /** `s.split(sep)` for a non-empty separator: the pieces between the
      left-to-right, non-overlapping occurrences of `sep`. */
  function Split(s: string, sep: string): (r: seq<string>)
    requires sep != []
    ensures |r| >= 1
    decreases |s|
  {
    if s == [] then [""]
    else if StartsWith(s, sep) then [""] + Split(s[|sep|..], sep)
    else
      var t := Split(s[1..], sep);
      [[s[0]] + t[0]] + t[1..]
  }

  /** `pieces.join(sep)`: the inverse of `Split`. */
  function Join(pieces: seq<string>, sep: string): string
    requires |pieces| >= 1
    decreases |pieces|
  {
    if |pieces| == 1 then pieces[0] else pieces[0] + sep + Join(pieces[1..], sep)
  }

  /** No occurrence of `sep` begins in `s` before position `n`. */
  predicate NoMatchBefore(s: string, sep: string, n: nat) {
    forall k :: 0 <= k < n && k <= |s| ==> !StartsWith(s[k..], sep)
  }

  /** Prepending a character to the first piece prepends it to the join. */
  lemma JoinExtendFirst(c: char, t: seq<string>, sep: string)
    requires |t| >= 1
    ensures Join([[c] + t[0]] + t[1..], sep) == [c] + Join(t, sep)
  {
    var r := [[c] + t[0]] + t[1..];
    if |t| > 1 {
      assert r[1..] == t[1..];
    }
  }

  /** A string that starts with the separator: an empty first piece, then
      the pieces of the rest. */
  lemma JoinSplitMatch(s: string, sep: string)
    requires sep != [] && s != [] && StartsWith(s, sep)
    requires Join(Split(s[|sep|..], sep), sep) == s[|sep|..]
    ensures Join(Split(s, sep), sep) == s
  {
    var t := Split(s[|sep|..], sep);
    assert Split(s, sep) == [""] + t;
    JoinEmptyFirst(t, sep);
    assert s == sep + s[|sep|..];
  }

  /** An empty first piece contributes only the separator. */
  lemma JoinEmptyFirst(t: seq<string>, sep: string)
    requires |t| >= 1
    ensures Join([""] + t, sep) == sep + Join(t, sep)
  {
    assert ([""] + t)[1..] == t;
    assert ([""] + t)[0] == "";
  }

  /** A string that does not start with the separator: its first character
      joins the first piece of the rest. */
  lemma JoinSplitSkip(s: string, sep: string)
    requires sep != [] && s != [] && !StartsWith(s, sep)
    requires Join(Split(s[1..], sep), sep) == s[1..]
    ensures Join(Split(s, sep), sep) == s
  {
    var t := Split(s[1..], sep);
    assert Split(s, sep) == [[s[0]] + t[0]] + t[1..];
    JoinExtendFirst(s[0], t, sep);
    assert s == [s[0]] + s[1..];
  }

  /** Splitting and joining again gives back the original string. */
  lemma {:induction false} JoinSplit(s: string, sep: string)
    requires sep != []
    ensures Join(Split(s, sep), sep) == s
    decreases |s|
  {
    if s == [] {
    } else if StartsWith(s, sep) {
      JoinSplit(s[|sep|..], sep);
      JoinSplitMatch(s, sep);
    } else {
      JoinSplit(s[1..], sep);
      JoinSplitSkip(s, sep);
    }
  }

  /** The first piece is everything before the first occurrence of `sep`:
      when `sep` does not begin inside `a`, `Split(a + sep + b)` starts a new
      piece right after `a`. */
  lemma {:induction false} SplitAt(a: string, sep: string, b: string)
    requires sep != []
    requires NoMatchBefore(a + sep + b, sep, |a|)
    ensures Split(a + sep + b, sep) == [a] + Split(b, sep)
    decreases |a|
  {
    var s := a + sep + b;
    if a == [] {
      assert s == sep + b;
      assert StartsWith(s, sep);
      assert s[|sep|..] == b;
    } else {
      assert !StartsWith(s[0..], sep);
      assert s[0..] == s;
      var s' := a[1..] + sep + b;
      assert s[1..] == s';
      forall k | 0 <= k < |a[1..]| && k <= |s'|
        ensures !StartsWith(s'[k..], sep)
      {
        assert s'[k..] == s[k + 1..];
      }
      SplitAt(a[1..], sep, b);
      assert [a[0]] + a[1..] == a;
    }
  }

  /** Without any occurrence of `sep`, `Split` returns the whole string. */
  lemma {:induction false} SplitNone(s: string, sep: string)
    requires sep != []
    requires NoMatchBefore(s, sep, |s| + 1)
    ensures Split(s, sep) == [s]
    decreases |s|
  {
    if s != [] {
      assert s[0..] == s;
      forall k | 0 <= k < |s[1..]| + 1 && k <= |s[1..]|
        ensures !StartsWith(s[1..][k..], sep)
      {
        assert s[1..][k..] == s[k + 1..];
      }
      SplitNone(s[1..], sep);
      assert [s[0]] + s[1..] == s;
    }
  }

  /** For a one-character separator, "no occurrence" is plain non-membership. */
  lemma NoCharMatch(s: string, c: char, n: nat)
    requires forall k :: 0 <= k < n && k < |s| ==> s[k] != c
    ensures NoMatchBefore(s, [c], n)
  {
    forall k | 0 <= k < n && k <= |s|
      ensures !StartsWith(s[k..], [c])
    {
      if k < |s| { assert s[k..][0] == s[k]; }
    }
  }

  /** Two pieces that do not contain the separator character split apart
      again. */
  lemma SplitPair(a: string, b: string, c: char)
    requires c !in a && c !in b
    ensures Split(a + [c] + b, [c]) == [a, b]
  {
    NoCharMatch(a + [c] + b, c, |a|);
    SplitAt(a, [c], b);
    NoCharMatch(b, c, |b| + 1);
    SplitNone(b, [c]);
  }

  /** `Split` on one character: no piece contains the separator, and there
      is a second piece exactly when the string contains the separator. */
  lemma {:induction false} SplitCharPieces(s: string, c: char)
    ensures forall i :: 0 <= i < |Split(s, [c])| ==> c !in Split(s, [c])[i]
    ensures |Split(s, [c])| >= 2 <==> c in s
    decreases |s|
  {
    if s != [] {
      SplitCharPieces(s[1..], c);
      if StartsWith(s, [c]) {
        assert s[0] == c;
        assert s[|[c]|..] == s[1..];
      } else {
        assert s[0] != c;
        assert c in s <==> c in s[1..] by {
          assert s == [s[0]] + s[1..];
        }
      }
    }
  }

  /** Splitting on one character after a last separator yields a trailing
      empty piece. */
  lemma {:induction false} SplitTrailing(s: string, c: char)
    ensures Split(s + [c], [c]) == Split(s, [c]) + [""]
    decreases |s|
  {
    var s' := s + [c];
    if s == [] {
      assert StartsWith(s', [c]);
      assert s'[1..] == [];
    } else if s[0] == c {
      assert StartsWith(s', [c]) && StartsWith(s, [c]);
      assert s'[1..] == s[1..] + [c];
      SplitTrailing(s[1..], c);
    } else {
      assert s'[0] == s[0];
      assert !StartsWith(s', [c]) && !StartsWith(s, [c]);
      assert s'[1..] == s[1..] + [c];
      SplitTrailing(s[1..], c);
      var t := Split(s[1..], [c]);
      assert Split(s'[1..], [c]) == t + [""];
      assert (t + [""])[0] == t[0];
      assert (t + [""])[1..] == t[1..] + [""];
    }
  }

  /** The characters that `trim` removes: ECMAScript WhiteSpace and
      LineTerminator code points. */
  predicate IsSpace(c: char) {
    c == '\t' || c == '\n' || c == '\U{B}' || c == '\U{C}' || c == '\r' || c == ' '
    || c == '\U{A0}' || c == '\U{1680}' || ('\U{2000}' <= c <= '\U{200A}')
    || c == '\U{2028}' || c == '\U{2029}' || c == '\U{202F}' || c == '\U{205F}'
    || c == '\U{3000}' || c == '\U{FEFF}'
  }

  /** Removes leading white space. */
  function TrimStart(s: string): string
    decreases |s|
  {
    if s != [] && IsSpace(s[0]) then TrimStart(s[1..]) else s
  }

  /** Removes trailing white space. */
  function TrimEnd(s: string): string
    decreases |s|
  {
    if s != [] && IsSpace(s[|s| - 1]) then TrimEnd(s[..|s| - 1]) else s
  }

  /** `TrimStart` keeps a suffix of `s`, what it drops is all white space,
      and what it keeps does not start with any. */
  lemma {:induction false} TrimStartSpec(s: string)
    ensures |TrimStart(s)| <= |s| && TrimStart(s) == s[|s| - |TrimStart(s)|..]
    ensures forall k :: 0 <= k < |s| - |TrimStart(s)| ==> IsSpace(s[k])
    ensures TrimStart(s) != [] ==> !IsSpace(TrimStart(s)[0])
    decreases |s|
  {
    if s != [] && IsSpace(s[0]) {
      TrimStartSpec(s[1..]);
    }
  }

  /** `TrimEnd` keeps a prefix of `s`, what it drops is all white space,
      and what it keeps does not end with any. */
  lemma {:induction false} TrimEndSpec(s: string)
    ensures |TrimEnd(s)| <= |s| && TrimEnd(s) == s[..|TrimEnd(s)|]
    ensures forall k :: |TrimEnd(s)| <= k < |s| ==> IsSpace(s[k])
    ensures TrimEnd(s) != [] ==> !IsSpace(TrimEnd(s)[|TrimEnd(s)| - 1])
    decreases |s|
  {
    if s != [] && IsSpace(s[|s| - 1]) {
      TrimEndSpec(s[..|s| - 1]);
    }
  }

  /** `r` is `s` with white space removed from both ends, the kept part
      starting at index `i`. */
  predicate TrimmedAt(s: string, r: string, i: nat) {
    && i + |r| <= |s| && r == s[i..i + |r|]
    && (forall k :: 0 <= k < i ==> IsSpace(s[k]))
    && (forall k :: i + |r| <= k < |s| ==> IsSpace(s[k]))
    && (r != [] ==> !IsSpace(r[0]) && !IsSpace(r[|r| - 1]))
  }

  /** `s.trim()`: white space removed from both ends. */
  function Trim(s: string): string {
    TrimEnd(TrimStart(s))
  }

  /** What `Trim` keeps is the contiguous part of `s` left once white space
      is removed from both ends, and it has none at either end. */
  lemma TrimSpec(s: string)
    ensures exists i: nat :: TrimmedAt(s, Trim(s), i)
  {
    var t := TrimStart(s);
    TrimStartSpec(s);
    TrimEndSpec(t);
    var i := |s| - |t|;
    assert TrimmedAt(s, Trim(s), i);
  }

  /** A string that neither starts nor ends with white space is its own trim. */
  lemma TrimOfTrimmed(s: string)
    requires s != [] ==> !IsSpace(s[0]) && !IsSpace(s[|s| - 1])
    ensures Trim(s) == s
  {
    TrimSpec(s);
  }

  /** Trimming twice is trimming once. */
  lemma TrimIdempotent(s: string)
    ensures Trim(Trim(s)) == Trim(s)
  {
    TrimSpec(s);
    TrimOfTrimmed(Trim(s));
  }

  /** With no leading white space, the trimmed string is a prefix. */
  lemma TrimPrefix(s: string)
    requires s != [] ==> !IsSpace(s[0])
    ensures StartsWith(s, Trim(s))
  {
    TrimSpec(s);
  }
}
