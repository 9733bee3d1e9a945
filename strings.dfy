/** The few Python string operations the extractor relies on, written out over
    `seq<char>`: the `in` substring test, `str.replace`, `str.strip` and
    `str.split` with a one-character separator. */
module Strings {

  /** Python's `str.isspace`: the characters whose bidirectional class is
      WS, B or S, or whose general category is Zs. */
  predicate IsSpace(c: char)
  {
    ('\t' <= c <= '\r') || ('\U{1C}' <= c <= '\U{1F}') || c == ' '
    || c == '\U{85}' || c == '\U{A0}' || c == '\U{1680}'
    || ('\U{2000}' <= c <= '\U{200A}') || c == '\U{2028}' || c == '\U{2029}'
    || c == '\U{202F}' || c == '\U{205F}' || c == '\U{3000}'
  }

  /** `pat in s` for strings. */
  predicate Contains(s: string, pat: string)
    decreases |s|
  {
    pat <= s || (|s| > 0 && Contains(s[1..], pat))
  }

  /** `pat` occurs in `s` starting at position `i`. */
  predicate OccursAt(s: string, pat: string, i: nat)
  {
    i + |pat| <= |s| && s[i..i + |pat|] == pat
  }

  /** An occurrence of `pat` found by the substring test. */
  lemma {:induction false} ContainsWitness(s: string, pat: string) returns (i: nat)
    requires Contains(s, pat)
    ensures OccursAt(s, pat, i)
    decreases |s|
  {
    if pat <= s {
      i := 0;
      assert s[0..|pat|] == pat;
    } else {
      var i' := ContainsWitness(s[1..], pat);
      i := i' + 1;
      assert s[i..i + |pat|] == s[1..][i'..i' + |pat|];
    }
  }

  /** The substring test finds every occurrence of `pat`. */
  lemma {:induction false} OccurrenceContains(s: string, pat: string, i: nat)
    requires OccursAt(s, pat, i)
    ensures Contains(s, pat)
    decreases i
  {
    if i == 0 {
      assert s[..|pat|] == pat;
    } else {
      assert s[1..][i - 1..i - 1 + |pat|] == s[i..i + |pat|];
      OccurrenceContains(s[1..], pat, i - 1);
    }
  }

  /** The substring test holds exactly when `pat` occurs at some position of `s`. */
  lemma ContainsAt(s: string, pat: string)
    ensures Contains(s, pat) <==> exists i: nat :: OccursAt(s, pat, i)
  {
    if Contains(s, pat) {
      var i := ContainsWitness(s, pat);
    } else {
      forall i: nat
        ensures !OccursAt(s, pat, i)
      {
        if OccursAt(s, pat, i) {
          OccurrenceContains(s, pat, i);
        }
      }
    }
  }

  /** For a one-character pattern the substring test is plain membership. */
  lemma {:induction false} ContainsChar(s: string, c: char)
    ensures Contains(s, [c]) <==> c in s
    decreases |s|
  {
    if s != [] {
      ContainsChar(s[1..], c);
      assert s == [s[0]] + s[1..];
    }
  }

  /** `s.replace(pat, rep)`: one left-to-right pass that replaces every
      non-overlapping occurrence of `pat`. */
  function ReplaceAll(s: string, pat: string, rep: string): (r: string)
    requires |pat| > 0
    decreases |s|
  {
    if s == [] then []
    else if pat <= s then rep + ReplaceAll(s[|pat|..], pat, rep)
    else [s[0]] + ReplaceAll(s[1..], pat, rep)
  }

  /** Replacing a pattern that does not occur leaves the string unchanged. */
  lemma {:induction false} ReplaceAbsent(s: string, pat: string, rep: string)
    requires |pat| > 0
    requires !Contains(s, pat)
    ensures ReplaceAll(s, pat, rep) == s
    decreases |s|
  {
    if s != [] {
      ReplaceAbsent(s[1..], pat, rep);
      assert s == [s[0]] + s[1..];
    }
  }

  /** Every character of the result comes from the input or from the replacement. */
  lemma {:induction false} ReplaceChars(s: string, pat: string, rep: string, c: char)
    requires |pat| > 0
    requires c in ReplaceAll(s, pat, rep)
    ensures c in s || c in rep
    decreases |s|
  {
    if s != [] {
      if pat <= s {
        if c !in rep {
          ReplaceChars(s[|pat|..], pat, rep, c);
        }
      } else if c != s[0] {
        ReplaceChars(s[1..], pat, rep, c);
      }
    }
  }

  /** Reference definition of deleting every `c` from a string. */
  function Without(s: string, c: char): (r: string)
    ensures c !in r
    ensures forall d :: d in r <==> d in s && d != c
    ensures |r| <= |s|
  {
    if s == [] then [] else (if s[0] == c then [] else [s[0]]) + Without(s[1..], c)
  }

  /** Deleting a character distributes over concatenation. */
  lemma {:induction false} WithoutConcat(a: string, b: string, c: char)
    ensures Without(a + b, c) == Without(a, c) + Without(b, c)
    decreases |a|
  {
    if a == [] {
      assert a + b == b;
    } else {
      assert (a + b)[1..] == a[1..] + b;
      WithoutConcat(a[1..], b, c);
    }
  }

  /** Deleting a character that does not occur changes nothing. */
  lemma {:induction false} WithoutAbsent(s: string, c: char)
    requires c !in s
    ensures Without(s, c) == s
    decreases |s|
  {
    if s != [] {
      WithoutAbsent(s[1..], c);
      assert s == [s[0]] + s[1..];
    }
  }

  /** `s.replace(c, "")` for one character `c` deletes every occurrence of `c`. */
  lemma {:induction false} ReplaceCharDeletes(s: string, c: char)
    ensures ReplaceAll(s, [c], []) == Without(s, c)
    decreases |s|
  {
    if s != [] {
      ReplaceCharDeletes(s[1..], c);
    }
  }

  /** The pass is not repeated: deleting a word can bring a new copy of it
      together from the pieces around it ("Comp" + "Composition" + "osition"). */
  lemma ReplaceIsOnePass(head: string, pat: string, tail: string)
    requires head == "Comp" && pat == "Composition" && tail == "osition"
    ensures ReplaceAll(head + pat + tail, pat, []) == pat
  {
    NoMatchInsideHead(head, pat, tail);
    ReplaceUnmatchedHead(head, pat + tail, pat, []);
    ReplaceRestOfWord(pat, tail);
    assert head + pat + tail == head + (pat + tail);
    assert head + tail == pat;
  }

  lemma NoMatchInsideHead(head: string, pat: string, tail: string)
    requires head == "Comp" && pat == "Composition" && tail == "osition"
    ensures forall i :: 0 <= i < |head| ==> !(pat <= head[i..] + (pat + tail))
  {
    forall i | 0 <= i < |head|
      ensures !(pat <= head[i..] + (pat + tail))
    {
      if i == 0 {
        assert (head[i..] + (pat + tail))[4] != pat[4];
      } else {
        assert (head[i..] + (pat + tail))[0] == head[i] != pat[0];
      }
    }
  }

  lemma ReplaceRestOfWord(pat: string, tail: string)
    requires pat == "Composition" && tail == "osition"
    ensures ReplaceAll(pat + tail, pat, []) == tail
  {
    assert !Contains(tail, pat) by {
      ContainsAt(tail, pat);
    }
    ReplaceAbsent(tail, pat, []);
    assert (pat + tail)[|pat|..] == tail;
  }

  /** Characters at which the pattern does not start are copied as they are. */
  lemma {:induction false} ReplaceUnmatchedHead(a: string, s: string, pat: string, rep: string)
    requires |pat| > 0
    requires forall i :: 0 <= i < |a| ==> !(pat <= a[i..] + s)
    ensures ReplaceAll(a + s, pat, rep) == a + ReplaceAll(s, pat, rep)
    decreases |a|
  {
    if a != [] {
      assert a[0..] == a;
      assert (a + s)[1..] == a[1..] + s;
      forall i | 0 <= i < |a[1..]|
        ensures !(pat <= a[1..][i..] + s)
      {
        assert a[1..][i..] == a[i + 1..];
      }
      ReplaceUnmatchedHead(a[1..], s, pat, rep);
      assert !(pat <= a + s);
      assert ReplaceAll(a + s, pat, rep) == [a[0]] + ReplaceAll(a[1..] + s, pat, rep);
      assert a == [a[0]] + a[1..];
    } else {
      assert a + s == s;
    }
  }

  /** A string with no whitespace at either end, as `str.strip` leaves it. */
  predicate IsStripped(t: string)
  {
    t == [] || (!IsSpace(t[0]) && !IsSpace(t[|t| - 1]))
  }

  /** `s.lstrip()` */
  function TrimStart(s: string): (r: string)
  {
    if s != [] && IsSpace(s[0]) then TrimStart(s[1..]) else s
  }

  /** `s.rstrip()` */
  function TrimEnd(s: string): (r: string)
  {
    if s != [] && IsSpace(s[|s| - 1]) then TrimEnd(s[..|s| - 1]) else s
  }

  /** `s.strip()` */
  function Strip(s: string): (r: string)
  {
    TrimEnd(TrimStart(s))
  }

  lemma {:induction false} TrimStartSlice(s: string) returns (i: nat)
    ensures i <= |s| && TrimStart(s) == s[i..]
    ensures forall k :: 0 <= k < i ==> IsSpace(s[k])
    ensures i < |s| ==> !IsSpace(s[i])
    decreases |s|
  {
    if s != [] && IsSpace(s[0]) {
      var i' := TrimStartSlice(s[1..]);
      i := i' + 1;
      assert s[1..][i'..] == s[i..];
      forall k | 0 <= k < i ensures IsSpace(s[k]) {
        if k > 0 { assert s[k] == s[1..][k - 1]; }
      }
    } else {
      i := 0;
    }
  }

  lemma {:induction false} TrimEndSlice(s: string) returns (j: nat)
    ensures j <= |s| && TrimEnd(s) == s[..j]
    ensures forall k :: j <= k < |s| ==> IsSpace(s[k])
    ensures 0 < j ==> !IsSpace(s[j - 1])
    decreases |s|
  {
    if s != [] && IsSpace(s[|s| - 1]) {
      j := TrimEndSlice(s[..|s| - 1]);
      assert s[..|s| - 1][..j] == s[..j];
    } else {
      j := |s|;
    }
  }

  /** `s.strip()` cuts a run of whitespace off each end and nothing else:
      the result is the slice `s[i..j]`, everything outside it is whitespace,
      and the slice neither starts nor ends with whitespace. */
  lemma StripSlice(s: string) returns (i: nat, j: nat)
    ensures i <= j <= |s| && Strip(s) == s[i..j]
    ensures forall k :: 0 <= k < i ==> IsSpace(s[k])
    ensures forall k :: j <= k < |s| ==> IsSpace(s[k])
    ensures IsStripped(Strip(s))
  {
    i := TrimStartSlice(s);
    var t := s[i..];
    var j' := TrimEndSlice(t);
    j := i + j';
    assert t[..j'] == s[i..j];
    forall k | j <= k < |s| ensures IsSpace(s[k]) {
      assert s[k] == t[k - i];
    }
    if j' > 0 {
      assert Strip(s)[0] == s[i];
    }
  }

  /** What callers of `strip` rely on: the result has no whitespace at its
      ends, and every character of it was already in the input. */
  lemma StripShape(s: string)
    ensures IsStripped(Strip(s))
    ensures forall c :: c in Strip(s) ==> c in s
  {
    var i, j := StripSlice(s);
    forall c | c in Strip(s) ensures c in s {
      var k :| 0 <= k < |s[i..j]| && s[i..j][k] == c;
      assert s[i + k] == c;
    }
  }

  /** Whitespace put in front of a stripped text is all that `strip` removes. */
  lemma {:induction false} StripLeadingSpace(w: string, x: string)
    requires forall k :: 0 <= k < |w| ==> IsSpace(w[k])
    requires IsStripped(x)
    ensures Strip(w + x) == x
  {
    TrimStartPastSpace(w, x);
    if x == [] {
      assert TrimStart(w + x) == [];
    }
  }

  lemma {:induction false} TrimStartPastSpace(w: string, x: string)
    requires forall k :: 0 <= k < |w| ==> IsSpace(w[k])
    requires IsStripped(x)
    ensures TrimStart(w + x) == TrimStart(x)
    decreases |w|
  {
    if w == [] {
      assert w + x == x;
    } else {
      assert (w + x)[0] == w[0] && (w + x)[1..] == w[1..] + x;
      TrimStartPastSpace(w[1..], x);
    }
  }

  /** A text made only of whitespace strips to the empty string. */
  lemma AllSpaceStripsToEmpty(s: string)
    requires forall k :: 0 <= k < |s| ==> IsSpace(s[k])
    ensures Strip(s) == []
  {
    StripLeadingSpace(s, []);
    assert s + [] == s;
  }

  /** Stripping an already stripped string changes nothing (so `strip` is idempotent). */
  lemma StripStripped(t: string)
    requires IsStripped(t)
    ensures Strip(t) == t
  {
  }

  /** `s.split(c)`: the pieces between occurrences of `c`; never empty. */
  function Split(s: string, c: char): (parts: seq<string>)
    ensures |parts| >= 1
    decreases |s|
  {
    if s == [] then [[]]
    else
      var rest := Split(s[1..], c);
      if s[0] == c then [[]] + rest
      else [[s[0]] + rest[0]] + rest[1..]
  }

  /** `c.join(parts)`, the inverse of `Split`. */
  function Join(parts: seq<string>, c: char): (s: string)
    requires |parts| >= 1
  {
    if |parts| == 1 then parts[0] else parts[0] + [c] + Join(parts[1..], c)
  }

  /** Splitting and joining back gives the original string. */
  lemma {:induction false} JoinSplit(s: string, c: char)
    ensures Join(Split(s, c), c) == s
    decreases |s|
  {
    if s != [] {
      JoinSplit(s[1..], c);
      var rest := Split(s[1..], c);
      if s[0] != c && |rest| > 1 {
        assert ([[s[0]] + rest[0]] + rest[1..])[1..] == rest[1..];
        assert Join(rest, c) == rest[0] + [c] + Join(rest[1..], c);
      }
    }
  }

  /** No piece of a split contains the separator. */
  lemma {:induction false} SplitPiecesFree(s: string, c: char)
    ensures forall k :: 0 <= k < |Split(s, c)| ==> c !in Split(s, c)[k]
    decreases |s|
  {
    if s != [] {
      SplitPiecesFree(s[1..], c);
    }
  }

  /** `s.split(c)[-1]` */
  function LastPiece(s: string, c: char): (piece: string)
  {
    var parts := Split(s, c);
    parts[|parts| - 1]
  }

  /** How `s.split(c)[-1]` changes when one character is put in front. */
  lemma LastPieceStep(s: string, c: char)
    requires s != []
    ensures LastPiece(s, c) == if s[0] != c && c !in s[1..] then s else LastPiece(s[1..], c)
  {
    var rest := Split(s[1..], c);
    if s[0] != c {
      if c in s[1..] {
        SplitMany(s[1..], c);
        assert Split(s, c)[|Split(s, c)| - 1] == rest[|rest| - 1];
      } else {
        SplitIntoOne(s[1..], c);
        assert s == [s[0]] + s[1..];
      }
    }
  }

  /** `s.split(c)[-1]` is the text after the last `c`, or all of `s` when
      there is no `c`. */
  lemma {:induction false} LastPieceIsTail(s: string, c: char)
    ensures |LastPiece(s, c)| <= |s|
    ensures s[|s| - |LastPiece(s, c)|..] == LastPiece(s, c)
    ensures c !in LastPiece(s, c)
    ensures c in s ==> |LastPiece(s, c)| < |s| && s[|s| - |LastPiece(s, c)| - 1] == c
    ensures c !in s ==> LastPiece(s, c) == s
    decreases |s|
  {
    if c !in s {
      SplitIntoOne(s, c);
    } else {
      LastPieceStep(s, c);
      var t := LastPiece(s[1..], c);
      if c in s[1..] {
        LastPieceIsTail(s[1..], c);
        assert s[1..][|s[1..]| - |t|..] == s[|s| - |t|..];
        assert s[1..][|s[1..]| - |t| - 1] == s[|s| - |t| - 1];
      } else {
        SplitIntoOne(s[1..], c);
        assert t == s[1..];
      }
    }
  }

  /** A string without the separator splits into itself alone. */
  lemma {:induction false} SplitIntoOne(s: string, c: char)
    requires c !in s
    ensures Split(s, c) == [s]
    decreases |s|
  {
    if s != [] {
      SplitIntoOne(s[1..], c);
      assert s == [s[0]] + s[1..];
    }
  }

  /** A string holding the separator splits into at least two pieces. */
  lemma {:induction false} SplitMany(s: string, c: char)
    requires c in s
    ensures |Split(s, c)| > 1
    decreases |s|
  {
    if s[0] != c {
      SplitMany(s[1..], c);
    }
  }
}
