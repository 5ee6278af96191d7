/** The three Python string operations the row decoder relies on:
    `s.split(sep)` with a one-character separator, `s.strip()` and `s.split()`
    (split on runs of whitespace). Python strings are modelled as `seq<char>`. */
module PyText {

  /** Python's `str.isspace` for one character: the characters `strip()` and
      `split()` (without arguments) treat as whitespace. */
  predicate IsSpace(c: char) {
    var n := c as int;
    || 0x09 <= n <= 0x0D
    || 0x1C <= n <= 0x20
    || n == 0x85 || n == 0xA0 || n == 0x1680
    || 0x2000 <= n <= 0x200A
    || n == 0x2028 || n == 0x2029 || n == 0x202F || n == 0x205F || n == 0x3000
  }

  /** A string holding no whitespace character. */
  predicate NoSpace(s: string) {
    forall i :: 0 <= i < |s| ==> !IsSpace(s[i])
  }

  // ---------------------------------------------------------------------------
  // s.split(sep)
  // ---------------------------------------------------------------------------

  /** `s.split(sep)` for a single-character separator: the pieces between
      consecutive occurrences of `sep`, always at least one. */
  function SplitOn(s: string, sep: char): (parts: seq<string>)
    ensures |parts| >= 1
    ensures forall i :: 0 <= i < |parts| ==> sep !in parts[i]
    ensures sep in s <==> |parts| >= 2
    decreases |s|
  {
    if s == [] then [[]]
    else
      var rest := SplitOn(s[1..], sep);
      if s[0] == sep then [[]] + rest
      else [[s[0]] + rest[0]] + rest[1..]
  }

  /** `sep.join(parts)`: the inverse of `SplitOn`. */
  function JoinOn(parts: seq<string>, sep: char): string
    requires |parts| >= 1
    decreases |parts|
  {
    if |parts| == 1 then parts[0] else parts[0] + [sep] + JoinOn(parts[1..], sep)
  }

  /** Splitting and joining again gives back the original string. */
  lemma {:induction false} JoinSplit(s: string, sep: char)
    ensures JoinOn(SplitOn(s, sep), sep) == s
    decreases |s|
  {
    if s != [] {
      var rest := SplitOn(s[1..], sep);
      JoinSplit(s[1..], sep);
      if s[0] != sep {
        if |rest| == 1 {
          assert SplitOn(s, sep) == [[s[0]] + rest[0]];
        } else {
          assert rest == [rest[0]] + rest[1..];
          assert JoinOn(rest, sep) == rest[0] + [sep] + JoinOn(rest[1..], sep);
          assert SplitOn(s, sep)[1..] == rest[1..];
        }
      } else {
        assert SplitOn(s, sep)[1..] == rest;
      }
    }
  }

  /** Joining pieces that hold no separator and splitting again gives back
      the pieces. */
  lemma {:induction false} SplitJoin(parts: seq<string>, sep: char)
    requires |parts| >= 1
    requires forall i :: 0 <= i < |parts| ==> sep !in parts[i]
    ensures SplitOn(JoinOn(parts, sep), sep) == parts
    decreases |parts|
  {
    if |parts| == 1 {
      SplitNoSep(parts[0], sep);
    } else {
      SplitJoin(parts[1..], sep);
      SplitAfterFree(parts[0], JoinOn(parts[1..], sep), sep);
      assert [parts[0]] + parts[1..] == parts;
    }
  }

  /** A string without the separator splits into itself alone. */
  lemma {:induction false} SplitNoSep(s: string, sep: char)
    requires sep !in s
    ensures SplitOn(s, sep) == [s]
    decreases |s|
  {
    if s != [] {
      assert sep !in s[1..] by {
        forall i | 0 <= i < |s[1..]| ensures s[1..][i] != sep {
          assert s[1..][i] == s[i + 1];
        }
      }
      SplitNoSep(s[1..], sep);
      assert [s[0]] + s[1..] == s;
    }
  }

  /** Splitting `a + [sep] + b` where `a` has no separator yields `a` followed by
      the pieces of `b`. */
  lemma {:induction false} SplitAfterFree(a: string, b: string, sep: char)
    requires sep !in a
    ensures SplitOn(a + [sep] + b, sep) == [a] + SplitOn(b, sep)
    decreases |a|
  {
    if a == [] {
      assert a + [sep] + b == [sep] + b;
      assert ([sep] + b)[1..] == b;
    } else {
      assert sep !in a[1..] by {
        forall i | 0 <= i < |a[1..]| ensures a[1..][i] != sep {
          assert a[1..][i] == a[i + 1];
        }
      }
      SplitAfterFree(a[1..], b, sep);
      assert (a + [sep] + b)[1..] == a[1..] + [sep] + b;
      assert [a[0]] + a[1..] == a;
    }
  }

  /** The first piece of `seg + rest` is `seg` when `seg` holds no separator
      and `rest` is empty or starts with one. */
  lemma {:induction false} FirstPiece(seg: string, rest: string, sep: char)
    requires sep !in seg
    requires rest == [] || rest[0] == sep
    ensures SplitOn(seg + rest, sep)[0] == seg
    decreases |seg|
  {
    if seg == [] {
      assert seg + rest == rest;
    } else {
      assert sep !in seg[1..] by {
        forall i | 0 <= i < |seg[1..]| ensures seg[1..][i] != sep {
          assert seg[1..][i] == seg[i + 1];
        }
      }
      FirstPiece(seg[1..], rest, sep);
      assert (seg + rest)[1..] == seg[1..] + rest;
      assert [seg[0]] + seg[1..] == seg;
    }
  }

  /** The piece `SplitOn(s, sep)[1]` is exactly the text between the first
      and the second occurrence of `sep` (or the end of `s`). */
  lemma SecondPiece(before: string, seg: string, rest: string, sep: char)
    requires sep !in before && sep !in seg
    requires rest == [] || rest[0] == sep
    ensures SplitOn(before + [sep] + seg + rest, sep)[1] == seg
  {
    var tail := seg + rest;
    assert before + [sep] + seg + rest == before + [sep] + tail;
    SplitAfterFree(before, tail, sep);
    FirstPiece(seg, rest, sep);
  }

  // ---------------------------------------------------------------------------
  // s.strip()
  // ---------------------------------------------------------------------------

  /** `s.lstrip()`: drops leading whitespace. */
  function TrimStart(s: string): (r: string)
    ensures |r| <= |s|
    ensures forall i :: 0 <= i < |s| - |r| ==> IsSpace(s[i])
    ensures r == [] || !IsSpace(r[0])
    decreases |s|
  {
    if s != [] && IsSpace(s[0]) then TrimStart(s[1..]) else s
  }

  /** What `TrimStart` keeps is a suffix of its argument. */
  lemma {:induction false} TrimStartSuffix(s: string)
    ensures TrimStart(s) == s[|s| - |TrimStart(s)|..]
    decreases |s|
  {
    if s != [] && IsSpace(s[0]) {
      TrimStartSuffix(s[1..]);
    }
  }

  /** `s.rstrip()`: drops trailing whitespace. */
  function TrimEnd(s: string): (r: string)
    ensures |r| <= |s| && r == s[..|r|]
    ensures forall i :: |r| <= i < |s| ==> IsSpace(s[i])
    ensures r == [] || !IsSpace(r[|r| - 1])
    decreases |s|
  {
    if s != [] && IsSpace(s[|s| - 1]) then TrimEnd(s[..|s| - 1]) else s
  }

  /** `s.strip()`: a contiguous piece of `s` that neither starts nor ends with
      whitespace, and everything cut away is whitespace. */
  function Strip(s: string): (r: string)
    ensures exists i, j :: 0 <= i <= j <= |s| && r == s[i..j] && Cut(s, i, j)
    ensures r == [] || (!IsSpace(r[0]) && !IsSpace(r[|r| - 1]))
    ensures s == [] || (!IsSpace(s[0]) && !IsSpace(s[|s| - 1])) ==> r == s
    ensures NoSpace(s) ==> r == s
  {
    var t := TrimStart(s);
    TrimStartSuffix(s);
    var r := TrimEnd(t);
    assert r != [] ==> r[0] == t[0];
    CutOfParts(s, |s| - |t|, t, r);
    r
  }

  /** Cutting whitespace from the front of `s` and then from the back of the
      rest keeps a piece of `s` with only whitespace around it. */
  lemma CutOfParts(s: string, i: nat, t: string, r: string)
    requires i <= |s| && t == s[i..] && |r| <= |t| && r == t[..|r|]
    requires forall k :: 0 <= k < i ==> IsSpace(s[k])
    requires forall k :: |r| <= k < |t| ==> IsSpace(t[k])
    ensures i + |r| <= |s| && r == s[i..i + |r|] && Cut(s, i, i + |r|)
  {
    forall k | i + |r| <= k < |s| ensures IsSpace(s[k]) {
      assert s[k] == t[k - i];
    }
  }

  /** Everything before `i` and from `j` on is whitespace. */
  predicate Cut(s: string, i: nat, j: nat)
    requires i <= j <= |s|
  {
    && (forall k :: 0 <= k < i ==> IsSpace(s[k]))
    && (forall k :: j <= k < |s| ==> IsSpace(s[k]))
  }

  // ---------------------------------------------------------------------------
  // s.split()
  // ---------------------------------------------------------------------------

  /** The longest whitespace-free prefix of `s`. */
  function Word(s: string): (w: string)
    ensures |w| <= |s| && w == s[..|w|]
    ensures NoSpace(w)
    ensures |w| == |s| || IsSpace(s[|w|])
    decreases |s|
  {
    if s == [] || IsSpace(s[0]) then [] else [s[0]] + Word(s[1..])
  }

  /** `s.split()`: the maximal whitespace-free runs of `s`, in order; none is
      empty. */
  function Words(s: string): (ws: seq<string>)
    ensures forall i :: 0 <= i < |ws| ==> ws[i] != [] && NoSpace(ws[i])
    decreases |s|
  {
    var t := TrimStart(s);
    if t == [] then []
    else
      var w := Word(t);
      [w] + Words(t[|w|..])
  }

  /** `" ".join(words)`. */
  function JoinSpace(words: seq<string>): string
    decreases |words|
  {
    if words == [] then []
    else if |words| == 1 then words[0]
    else words[0] + " " + JoinSpace(words[1..])
  }

  /** A character other than the space that occurs in none of the words does
      not occur in their space-joined form. */
  lemma {:induction false} JoinSpaceAvoids(words: seq<string>, c: char)
    requires c != ' '
    requires forall i :: 0 <= i < |words| ==> c !in words[i]
    ensures c !in JoinSpace(words)
    decreases |words|
  {
    if |words| > 1 {
      JoinSpaceAvoids(words[1..], c);
      assert c !in words[0] + " ";
    }
  }

  /** A non-empty, whitespace-free string followed by whitespace (or nothing)
      is a whole word. */
  lemma {:induction false} WordOfPrefix(w: string, rest: string)
    requires NoSpace(w)
    requires rest == [] || IsSpace(rest[0])
    ensures Word(w + rest) == w
    decreases |w|
  {
    if w != [] {
      assert NoSpace(w[1..]) by {
        forall i | 0 <= i < |w[1..]| ensures !IsSpace(w[1..][i]) {
          assert w[1..][i] == w[i + 1];
        }
      }
      WordOfPrefix(w[1..], rest);
      assert (w + rest)[1..] == w[1..] + rest;
      assert [w[0]] + w[1..] == w;
    } else {
      assert w + rest == rest;
    }
  }

  /** A non-empty, whitespace-free string is one word. */
  lemma WordsSingle(w: string)
    requires w != [] && NoSpace(w)
    ensures Words(w) == [w]
  {
    WordOfPrefix(w, []);
    assert w + [] == w;
  }

  /** Leading whitespace does not change the words. */
  lemma {:induction false} WordsSkipSpace(sp: string, s: string)
    requires forall i :: 0 <= i < |sp| ==> IsSpace(sp[i])
    ensures Words(sp + s) == Words(s)
    decreases |sp|
  {
    if sp != [] {
      assert (sp + s)[1..] == sp[1..] + s;
      WordsSkipSpace(sp[1..], s);
      assert TrimStart(sp + s) == TrimStart(sp[1..] + s);
    } else {
      assert sp + s == s;
    }
  }

  /** Joining non-empty, whitespace-free words with single spaces and splitting
      again gives back the words. */
  lemma {:induction false} WordsJoinSpace(words: seq<string>)
    requires forall i :: 0 <= i < |words| ==> words[i] != [] && NoSpace(words[i])
    ensures Words(JoinSpace(words)) == words
    decreases |words|
  {
    if |words| == 1 {
      WordsSingle(words[0]);
    } else if |words| > 1 {
      var w := words[0];
      var rest := " " + JoinSpace(words[1..]);
      assert JoinSpace(words) == w + rest;
      assert TrimStart(w + rest) == w + rest;
      WordOfPrefix(w, rest);
      assert (w + rest)[|w|..] == rest;
      WordsSkipSpace(" ", JoinSpace(words[1..]));
      WordsJoinSpace(words[1..]);
      assert [w] + words[1..] == words;
    }
  }

  /** Appending to a string that does not start with whitespace after
      trimming appends to its trimmed form. */
  lemma {:induction false} TrimStartAppend(s: string, y: string)
    requires TrimStart(s) != []
    ensures TrimStart(s + y) == TrimStart(s) + y
    decreases |s|
  {
    if s != [] && IsSpace(s[0]) {
      assert (s + y)[1..] == s[1..] + y;
      TrimStartAppend(s[1..], y);
    }
  }

  /** Trailing whitespace does not change the words. */
  lemma {:induction false} WordsDropTrailing(s: string, sp: string)
    requires forall i :: 0 <= i < |sp| ==> IsSpace(sp[i])
    ensures Words(s + sp) == Words(s)
    decreases |s|
  {
    var t := TrimStart(s);
    if t == [] {
      var all := s + sp;
      forall i | 0 <= i < |all| ensures IsSpace(all[i]) {
        if i < |s| {
          assert all[i] == s[i];
        } else {
          assert all[i] == sp[i - |s|];
        }
      }
      WordsOfSpace(all);
    } else {
      var w := Word(t);
      var tail := t[|w|..];
      assert TrimStart(s + sp) == w + (tail + sp) by {
        TrimStartAppend(s, sp);
        assert t == w + tail;
      }
      assert Word(w + (tail + sp)) == w by {
        WordOfPrefix(w, tail + sp);
      }
      assert (w + (tail + sp))[|w|..] == tail + sp;
      WordsDropTrailing(tail, sp);
    }
  }

  /** Leading whitespace cut by `lstrip` does not change the words. */
  lemma WordsOfTrimStart(s: string)
    ensures Words(TrimStart(s)) == Words(s)
  {
    var t := TrimStart(s);
    TrimStartSuffix(s);
    var k := |s| - |t|;
    assert s == s[..k] + t;
    WordsSkipSpace(s[..k], t);
  }

  /** Trailing whitespace cut by `rstrip` does not change the words. */
  lemma WordsOfTrimEnd(t: string)
    ensures Words(TrimEnd(t)) == Words(t)
  {
    var r := TrimEnd(t);
    assert t == r + t[|r|..];
    WordsDropTrailing(r, t[|r|..]);
  }

  /** `s.strip().split()` equals `s.split()`: the strip is redundant. */
  lemma WordsOfStrip(s: string)
    ensures Words(Strip(s)) == Words(s)
  {
    assert Strip(s) == TrimEnd(TrimStart(s));
    WordsOfTrimEnd(TrimStart(s));
    WordsOfTrimStart(s);
  }

  /** A string of whitespace has no words. */
  lemma WordsOfSpace(sp: string)
    requires forall i :: 0 <= i < |sp| ==> IsSpace(sp[i])
    ensures Words(sp) == []
  {
    WordsSkipSpace(sp, []);
    assert sp + [] == sp;
  }

  /** After leading whitespace, a maximal whitespace-free run is the first word
      and the words of the rest follow it. With `WordsOfSpace` this fixes
      `Words` on every string. */
  lemma WordsCons(sp: string, w: string, rest: string)
    requires forall i :: 0 <= i < |sp| ==> IsSpace(sp[i])
    requires w != [] && NoSpace(w)
    requires rest == [] || IsSpace(rest[0])
    ensures Words(sp + w + rest) == [w] + Words(rest)
  {
    assert sp + w + rest == sp + (w + rest);
    WordsSkipSpace(sp, w + rest);
    assert TrimStart(w + rest) == w + rest;
    WordOfPrefix(w, rest);
    assert (w + rest)[|w|..] == rest;
  }
}
