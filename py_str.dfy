/**
 * The Python string built-ins the application relies on, written out over
 * `seq<char>`: `str.isspace`/`str.strip`, `str.split` with a non-empty
 * separator, `str.replace(old, "")` and `str.join`.
 */
module PyStr {

  /** The characters for which Python's `str.isspace()` is true. */
  predicate IsSpace(c: char)
  {
    ('\t' <= c <= '\r') || ('\U{1C}' <= c <= '\U{1F}') || c == ' ' || c == '\U{85}' || c == '\U{A0}'
    || c == '\U{1680}' || ('\U{2000}' <= c <= '\U{200A}') || c == '\U{2028}' || c == '\U{2029}'
    || c == '\U{202F}' || c == '\U{205F}' || c == '\U{3000}'
  }

  predicate AllSpace(s: string)
  {
    forall k :: 0 <= k < |s| ==> IsSpace(s[k])
  }

  /** Neither end of `s` is whitespace: the shape `str.strip()` leaves behind. */
  predicate Trimmed(s: string)
  {
    s == [] || (!IsSpace(s[0]) && !IsSpace(s[|s| - 1]))
  }

  /** `s.lstrip()`: drop the leading whitespace. */
  function LStrip(s: string): string
  {
    if s != [] && IsSpace(s[0]) then LStrip(s[1..]) else s
  }

  /** `s.rstrip()`: drop the trailing whitespace. */
  function RStrip(s: string): string
  {
    if s != [] && IsSpace(s[|s| - 1]) then RStrip(s[..|s| - 1]) else s
  }

  /** `lstrip()` leaves the suffix after the leading whitespace, starting with a non-space. */
  lemma {:induction false} LStripShape(s: string)
    ensures var r := LStrip(s);
      |r| <= |s| && r == s[|s| - |r|..] && AllSpace(s[..|s| - |r|]) && (r == [] || !IsSpace(r[0]))
    decreases |s|
  {
    if s != [] && IsSpace(s[0]) {
      LStripShape(s[1..]);
      var r := LStrip(s[1..]);
      assert s[..|s| - |r|] == [s[0]] + s[1..][..|s| - 1 - |r|];
    }
  }

  /** `rstrip()` leaves the prefix before the trailing whitespace, ending with a non-space. */
  lemma {:induction false} RStripShape(s: string)
    ensures var r := RStrip(s);
      |r| <= |s| && r == s[..|r|] && AllSpace(s[|r|..]) && (r == [] || !IsSpace(r[|r| - 1]))
    decreases |s|
  {
    if s != [] && IsSpace(s[|s| - 1]) {
      RStripShape(s[..|s| - 1]);
      var r := RStrip(s[..|s| - 1]);
      assert s[|r|..] == s[..|s| - 1][|r|..] + [s[|s| - 1]];
    }
  }

  /**
   * `s.strip()`: the middle of `s` once the leading whitespace (length `n`)
   * and the trailing whitespace are cut off.
   */
  function Strip(s: string): (r: string)
    ensures Trimmed(r)
    ensures |LStrip(s)| <= |s| && var n := |s| - |LStrip(s)|;
      n + |r| <= |s| && r == s[n..n + |r|] && AllSpace(s[..n]) && AllSpace(s[n + |r|..])
  {
    var l := LStrip(s);
    var r := RStrip(l);
    LStripShape(s);
    RStripShape(l);
    var n := |s| - |l|;
    assert r != [] ==> r[0] == l[0];
    assert l == s[n..];
    assert r == s[n..n + |r|];
    assert l[|r|..] == s[n + |r|..];
    r
  }

  lemma {:induction false} LStripSpaces(a: string, t: string)
    requires AllSpace(a)
    requires t == [] || !IsSpace(t[0])
    ensures LStrip(a + t) == t
    decreases |a|
  {
    if a != [] {
      assert (a + t)[1..] == a[1..] + t;
      LStripSpaces(a[1..], t);
    }
  }

  lemma {:induction false} RStripSpaces(t: string, b: string)
    requires AllSpace(b)
    requires t == [] || !IsSpace(t[|t| - 1])
    ensures RStrip(t + b) == t
    decreases |b|
  {
    if b != [] {
      assert (t + b)[..|t + b| - 1] == t + b[..|b| - 1];
      RStripSpaces(t, b[..|b| - 1]);
    }
  }

  /**
   * `strip()` is characterised by its shape: whatever `m` is surrounded by
   * whitespace only and has no whitespace at its ends is what comes back.
   */
  lemma {:induction false} StripUnique(a: string, m: string, b: string)
    requires AllSpace(a) && AllSpace(b) && Trimmed(m)
    ensures Strip(a + m + b) == m
  {
    if m == [] {
      assert a + m + b == (a + b) + [];
      assert AllSpace(a + b) by {
        forall k | 0 <= k < |a + b| ensures IsSpace((a + b)[k]) {
          if k < |a| { assert (a + b)[k] == a[k]; } else { assert (a + b)[k] == b[k - |a|]; }
        }
      }
      LStripSpaces(a + b, []);
    } else {
      assert a + m + b == a + (m + b);
      LStripSpaces(a, m + b);
      RStripSpaces(m, b);
    }
  }

  /** `strip()` is idempotent; more generally it leaves a trimmed string alone. */
  lemma StripTrimmed(s: string)
    requires Trimmed(s)
    ensures Strip(s) == s
  {
    assert [] + s + [] == s;
    StripUnique([], s, []);
  }

  /** `sep` occurs in `s` starting at index `i`. */
  predicate OccursAt(s: string, sep: string, i: nat)
  {
    i + |sep| <= |s| && s[i..i + |sep|] == sep
  }

  /** Python's `sep in s`. */
  predicate Contains(s: string, sep: string)
  {
    exists i: nat :: i <= |s| && OccursAt(s, sep, i)
  }

  /** No character of `s` is `c`. */
  predicate Free(s: string, c: char)
  {
    forall j :: 0 <= j < |s| ==> s[j] != c
  }

  /** No string of `ss` holds the character `c`. */
  predicate AllFree(ss: seq<string>, c: char)
  {
    forall k :: 0 <= k < |ss| ==> Free(ss[k], c)
  }

  /** The leftmost occurrence of `sep` at or after `i`, given one at `j`. */
  function FirstFrom(s: string, sep: string, i: nat, j: nat): (k: nat)
    requires i <= j && OccursAt(s, sep, j)
    ensures i <= k <= j && OccursAt(s, sep, k)
    ensures forall m: nat :: i <= m < k ==> !OccursAt(s, sep, m)
    decreases j - i
  {
    if OccursAt(s, sep, i) then i else FirstFrom(s, sep, i + 1, j)
  }

  /**
   * `s.split(sep)` for a non-empty `sep`: scanning left to right, every
   * occurrence of `sep` that does not overlap an earlier cut ends a piece.
   */
  function Split(s: string, sep: string): (r: seq<string>)
    requires sep != []
    ensures |r| >= 1 && r[0] <= s
    decreases |s|
  {
    if |s| < |sep| then [s]
    else if s[..|sep|] == sep then [[]] + Split(s[|sep|..], sep)
    else
      var rest := Split(s[1..], sep);
      [[s[0]] + rest[0]] + rest[1..]
  }

  /** `sep.join(pieces)`. */
  function Join(sep: string, pieces: seq<string>): string
  {
    if |pieces| == 0 then []
    else if |pieces| == 1 then pieces[0]
    else pieces[0] + sep + Join(sep, pieces[1..])
  }

  /** `s.replace(t, "")`: every left-to-right, non-overlapping occurrence of `t` is dropped. */
  function RemoveAll(s: string, t: string): string
    requires t != []
    decreases |s|
  {
    if |s| < |t| then s
    else if s[..|t|] == t then RemoveAll(s[|t|..], t)
    else [s[0]] + RemoveAll(s[1..], t)
  }

  /** Joining one more piece puts a separator before it. */
  lemma {:induction false} JoinSnoc(sep: string, pieces: seq<string>, last: string)
    requires |pieces| >= 1
    ensures Join(sep, pieces + [last]) == Join(sep, pieces) + sep + last
    decreases |pieces|
  {
    if |pieces| > 1 {
      assert (pieces + [last])[1..] == pieces[1..] + [last];
      JoinSnoc(sep, pieces[1..], last);
    } else {
      assert (pieces + [last])[1..] == [last];
    }
  }

  /** Joining the pieces of a split with its separator gives back the string. */
  lemma {:induction false} JoinSplit(s: string, sep: string)
    requires sep != []
    ensures Join(sep, Split(s, sep)) == s
    decreases |s|
  {
    if |s| < |sep| {
    } else if s[..|sep|] == sep {
      var rest := Split(s[|sep|..], sep);
      JoinSplit(s[|sep|..], sep);
      calc {
        Join(sep, Split(s, sep));
        Join(sep, [[]] + rest);
        { assert ([[]] + rest)[1..] == rest; }
        [] + sep + Join(sep, rest);
        sep + s[|sep|..];
        { assert s == s[..|sep|] + s[|sep|..]; }
        s;
      }
    } else {
      var rest := Split(s[1..], sep);
      JoinSplit(s[1..], sep);
      var first := [s[0]] + rest[0];
      assert Split(s, sep) == [first] + rest[1..];
      if |rest| > 1 {
        calc {
          Join(sep, [first] + rest[1..]);
          { assert ([first] + rest[1..])[1..] == rest[1..]; }
          first + sep + Join(sep, rest[1..]);
          [s[0]] + (rest[0] + sep + Join(sep, rest[1..]));
          [s[0]] + Join(sep, rest);
        }
      } else {
        assert [first] + rest[1..] == [first];
      }
      assert s == [s[0]] + s[1..];
    }
  }

  /** An occurrence past the first character lies in the rest. */
  lemma OccursAfterFirst(x: char, r: string, sep: string, i: nat)
    requires i >= 1
    ensures OccursAt([x] + r, sep, i) ==> OccursAt(r, sep, i - 1)
  {
    if OccursAt([x] + r, sep, i) {
      assert ([x] + r)[i..i + |sep|] == r[i - 1..i - 1 + |sep|];
    }
  }

  /** No piece of a split contains the separator. */
  lemma {:induction false} SplitPiecesFree(s: string, sep: string)
    requires sep != []
    ensures forall k :: 0 <= k < |Split(s, sep)| ==> !Contains(Split(s, sep)[k], sep)
    decreases |s|
  {
    if |s| < |sep| {
    } else if s[..|sep|] == sep {
      SplitPiecesFree(s[|sep|..], sep);
      assert Split(s, sep)[1..] == Split(s[|sep|..], sep);
    } else {
      var rest := Split(s[1..], sep);
      SplitPiecesFree(s[1..], sep);
      var p := [s[0]] + rest[0];
      forall i: nat ensures !OccursAt(p, sep, i) {
        if i == 0 {
          assert rest[0] <= s[1..];
        } else {
          OccursAfterFirst(s[0], rest[0], sep, i);
        }
      }
      assert Split(s, sep)[1..] == rest[1..];
    }
  }

  /** Without an occurrence of `sep`, `split` gives the whole string back as the only piece. */
  lemma {:induction false} SplitAbsent(s: string, sep: string)
    requires sep != [] && !Contains(s, sep)
    ensures Split(s, sep) == [s]
    decreases |s|
  {
    if |s| < |sep| {
    } else {
      assert !OccursAt(s, sep, 0);
      assert !Contains(s[1..], sep) by {
        forall i: nat | OccursAt(s[1..], sep, i) ensures OccursAt(s, sep, i + 1) {
          assert s[1..][i..i + |sep|] == s[i + 1..i + 1 + |sep|];
        }
      }
      SplitAbsent(s[1..], sep);
      assert [s[0]] + s[1..] == s;
    }
  }

  /** Splitting cuts at the leftmost occurrence `k` and carries on after it. */
  lemma {:induction false} SplitAtFirst(s: string, sep: string, k: nat)
    requires sep != [] && OccursAt(s, sep, k)
    requires forall i: nat :: i < k ==> !OccursAt(s, sep, i)
    ensures Split(s, sep) == [s[..k]] + Split(s[k + |sep|..], sep)
    decreases k
  {
    if k > 0 {
      assert !OccursAt(s, sep, 0);
      var t := s[1..];
      assert OccursAt(t, sep, k - 1) by {
        assert t[k - 1..k - 1 + |sep|] == s[k..k + |sep|];
      }
      forall i: nat | i < k - 1 ensures !OccursAt(t, sep, i) {
        assert !OccursAt(s, sep, i + 1);
        assert t[i..i + |sep|] == s[i + 1..i + 1 + |sep|];
      }
      SplitAtFirst(t, sep, k - 1);
      var rest := Split(t, sep);
      assert rest == [t[..k - 1]] + Split(t[k - 1 + |sep|..], sep);
      assert Split(s, sep) == [[s[0]] + rest[0]] + rest[1..];
      assert t[k - 1 + |sep|..] == s[k + |sep|..];
      assert [s[0]] + t[..k - 1] == s[..k];
    }
  }

  /** One occurrence of `sep` is enough for `split` to give at least two pieces. */
  lemma SplitOccurs(s: string, sep: string, j: nat)
    requires sep != [] && OccursAt(s, sep, j)
    ensures |Split(s, sep)| >= 2
  {
    var k := FirstFrom(s, sep, 0, j);
    SplitAtFirst(s, sep, k);
  }

  /** `split` gives a single piece exactly when the separator does not occur. */
  lemma SplitSingleIff(s: string, sep: string)
    requires sep != []
    ensures |Split(s, sep)| == 1 <==> !Contains(s, sep)
  {
    if Contains(s, sep) {
      var j: nat :| OccursAt(s, sep, j);
      SplitOccurs(s, sep, j);
    } else {
      SplitAbsent(s, sep);
    }
  }

  /** Splitting on one character gives one piece more than there are copies of that character. */
  lemma {:induction false} SplitCharCount(s: string, c: char)
    ensures |Split(s, [c])| == multiset(s)[c] + 1
    decreases |s|
  {
    if |s| >= 1 {
      assert s == [s[0]] + s[1..];
      assert multiset(s) == multiset([s[0]]) + multiset(s[1..]);
      SplitCharCount(s[1..], c);
      assert s[1..] == s[|[c]|..];
    }
  }

  /** The pieces of a split on one character do not contain that character. */
  lemma SplitCharFree(s: string, c: char)
    ensures AllFree(Split(s, [c]), c)
  {
    SplitPiecesFree(s, [c]);
    forall k, j | 0 <= k < |Split(s, [c])| && 0 <= j < |Split(s, [c])[k]| ensures Split(s, [c])[k][j] != c {
      var p := Split(s, [c])[k];
      assert !OccursAt(p, [c], j);
      assert p[j..j + 1] == [p[j]];
    }
  }

  /** A first piece without the separator character is cut off at the separator that follows it. */
  lemma SplitAfterPiece(p: string, c: char, after: string)
    requires Free(p, c)
    ensures Split(p + [c] + after, [c]) == [p] + Split(after, [c])
  {
    var s := p + [c] + after;
    assert OccursAt(s, [c], |p|) by {
      assert s[|p|..|p| + 1] == [c];
    }
    forall i: nat | i < |p| ensures !OccursAt(s, [c], i) {
      assert s[i] == p[i];
    }
    SplitAtFirst(s, [c], |p|);
    assert s[..|p|] == p;
    assert s[|p| + 1..] == after;
  }

  /** A string without the separator character is its own only piece. */
  lemma SplitFree(s: string, c: char)
    requires Free(s, c)
    ensures Split(s, [c]) == [s]
  {
    forall i: nat | i <= |s| ensures !OccursAt(s, [c], i) {
      if i < |s| {
        assert s[i..i + 1][0] == s[i];
      }
    }
    SplitAbsent(s, [c]);
  }

  /**
   * Splitting more than one joined piece, then the separator and a tail,
   * cuts off the first piece and carries on with the rest.
   */
  lemma SplitJoinStep(pieces: seq<string>, c: char, tail: string)
    requires |pieces| >= 2
    requires Free(pieces[0], c)
    ensures Split(Join([c], pieces) + [c] + tail, [c])
         == [pieces[0]] + Split(Join([c], pieces[1..]) + [c] + tail, [c])
  {
    var after := Join([c], pieces[1..]) + [c] + tail;
    assert Join([c], pieces) + [c] + tail == pieces[0] + [c] + after;
    SplitAfterPiece(pieces[0], c, after);
  }

  /**
   * Splitting pieces joined by one character, then that character and a
   * tail, gives back the pieces followed by the tail's own pieces.
   */
  lemma {:induction false} SplitJoinThen(pieces: seq<string>, c: char, tail: string)
    requires |pieces| >= 1
    requires AllFree(pieces, c)
    ensures Split(Join([c], pieces) + [c] + tail, [c]) == pieces + Split(tail, [c])
    decreases |pieces|
  {
    if |pieces| == 1 {
      SplitAfterPiece(pieces[0], c, tail);
    } else {
      SplitJoinStep(pieces, c, tail);
      SplitJoinThen(pieces[1..], c, tail);
      assert pieces == [pieces[0]] + pieces[1..];
    }
  }

  /** Python's `s.replace(t, "") == "".join(s.split(t))`. */
  lemma {:induction false} RemoveAllJoinsPieces(s: string, t: string)
    requires t != []
    ensures RemoveAll(s, t) == Join([], Split(s, t))
    decreases |s|
  {
    if |s| < |t| {
    } else if s[..|t|] == t {
      RemoveAllJoinsPieces(s[|t|..], t);
      var rest := Split(s[|t|..], t);
      if |rest| == 1 {
      } else {
        assert Join([], [[]] + rest) == [] + [] + Join([], rest);
      }
    } else {
      RemoveAllJoinsPieces(s[1..], t);
      var rest := Split(s[1..], t);
      if |rest| > 1 {
        assert Join([], rest) == rest[0] + [] + Join([], rest[1..]);
      }
    }
  }

  /** Removing a substring that does not occur changes nothing. */
  lemma RemoveAllAbsent(s: string, t: string)
    requires t != [] && !Contains(s, t)
    ensures RemoveAll(s, t) == s
  {
    RemoveAllJoinsPieces(s, t);
    SplitAbsent(s, t);
  }

  /** `replace` drops the leftmost occurrence `k` of `t` and carries on after it. */
  lemma RemoveAllAtFirst(s: string, t: string, k: nat)
    requires t != [] && OccursAt(s, t, k)
    requires forall i: nat :: i < k ==> !OccursAt(s, t, i)
    ensures RemoveAll(s, t) == s[..k] + RemoveAll(s[k + |t|..], t)
  {
    var rest := Split(s[k + |t|..], t);
    calc {
      RemoveAll(s, t);
      { RemoveAllJoinsPieces(s, t); }
      Join([], Split(s, t));
      { SplitAtFirst(s, t, k); }
      Join([], [s[..k]] + rest);
      { if |rest| > 1 { assert Join([], [s[..k]] + rest) == s[..k] + [] + Join([], rest); } }
      s[..k] + Join([], rest);
      { RemoveAllJoinsPieces(s[k + |t|..], t); }
      s[..k] + RemoveAll(s[k + |t|..], t);
    }
  }
}
