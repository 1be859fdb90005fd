/**
 * The response formatter (`format_summary`): it cuts the model's free text
 * at the `**Key Points:**` marker into a summary paragraph and a list of
 * bullet points.
 */
module ResponseFormatter {
  import opened PyStr

  const KeyPointsMarker: string := "**Key Points:**"
  const SummaryLabel: string := "**Summary**"
  const Bullet: string := "*"
  const Emphasis: string := "**"

  /** The `{"summary": ..., "key_points": [...]}` dictionary. */
  datatype SummaryResult = SummaryResult(summary: string, keyPoints: seq<string>)

  /** What one iteration of the key-point loop appends for fragment `f`. */
  function PointOf(f: string): seq<string>
  {
    var p := Strip(f);
    if p != [] then [Strip(RemoveAll(p, Emphasis))] else []
  }

  /** The key points the loop has collected after visiting `frags`, in order. */
  function KeyPointsOf(frags: seq<string>): (r: seq<string>)
    ensures |r| <= |frags|
    decreases |frags|
  {
    if frags == [] then [] else KeyPointsOf(frags[..|frags| - 1]) + PointOf(frags[|frags| - 1])
  }

  /**
   * An independent reading of the key points: the stripped fragments that
   * are not blank, in the order they appear.
   */
  function NonBlankStripped(frags: seq<string>): (r: seq<string>)
    ensures forall k :: 0 <= k < |r| ==> r[k] != [] && Trimmed(r[k])
    decreases |frags|
  {
    if frags == [] then []
    else
      var p := Strip(frags[0]);
      (if p != [] then [p] else []) + NonBlankStripped(frags[1..])
  }

  /** `format_summary(text)` as a value: the specification of `FormatSummary`. */
  function Formatted(text: string): SummaryResult
  {
    var parts := Split(text, KeyPointsMarker);
    if |parts| != 2 then SummaryResult(text, [])
    else SummaryResult(Strip(RemoveAll(parts[0], SummaryLabel)), KeyPointsOf(Split(parts[1], Bullet)[1..]))
  }

  /** Every key point is non-empty, trimmed and free of `*`. */
  predicate WellShaped(points: seq<string>)
  {
    forall k :: 0 <= k < |points| ==> points[k] != [] && Trimmed(points[k]) && Free(points[k], '*')
  }

  method FormatSummary(text: string) returns (r: SummaryResult)
    ensures r == Formatted(text)
    ensures WellShaped(r.keyPoints)
  {
    var parts := Split(text, KeyPointsMarker);
    if |parts| != 2 {
      FormattedShape(text);
      return SummaryResult(text, []);
    }
    var summary := Strip(RemoveAll(parts[0], SummaryLabel));
    var fragments := Split(parts[1], Bullet)[1..];
    var keyPoints: seq<string> := [];
    for i := 0 to |fragments|
      invariant keyPoints == KeyPointsOf(fragments[..i])
    {
      assert fragments[..i + 1][..i] == fragments[..i];
      assert KeyPointsOf(fragments[..i + 1]) == KeyPointsOf(fragments[..i]) + PointOf(fragments[i]);
      var point := Strip(fragments[i]);
      if point != [] {
        point := Strip(RemoveAll(point, Emphasis));
        keyPoints := keyPoints + [point];
      }
    }
    assert fragments[..|fragments|] == fragments;
    assert Formatted(text) == SummaryResult(summary, KeyPointsOf(fragments));
    assert WellShaped(keyPoints) by {
      FormattedShape(text);
    }
    r := SummaryResult(summary, keyPoints);
  }

  /** Collecting over two runs of fragments is collecting over each in turn. */
  lemma {:induction false} KeyPointsAppend(a: seq<string>, b: seq<string>)
    ensures KeyPointsOf(a + b) == KeyPointsOf(a) + KeyPointsOf(b)
    decreases |b|
  {
    if b != [] {
      var b' := b[..|b| - 1];
      assert (a + b)[..|a + b| - 1] == a + b';
      assert (a + b)[|a + b| - 1] == b[|b| - 1];
      KeyPointsAppend(a, b');
    } else {
      assert a + b == a;
    }
  }

  /** Stripping keeps a character-free string character-free. */
  lemma StripFree(s: string, c: char)
    requires Free(s, c)
    ensures Free(Strip(s), c)
  {
    var r := Strip(s);
    var n := |s| - |LStrip(s)|;
    forall j | 0 <= j < |r| ensures r[j] != c {
      assert r[j] == s[n + j];
    }
  }

  /** For a `*`-free fragment, the `**` removal and the second strip change nothing. */
  lemma PointOfFree(f: string)
    requires Free(f, '*')
    ensures PointOf(f) == if Strip(f) != [] then [Strip(f)] else []
  {
    var p := Strip(f);
    StripFree(f, '*');
    if p != [] {
      assert !Contains(p, Emphasis) by {
        forall i: nat | i + 2 <= |p| ensures !OccursAt(p, Emphasis, i) {
          assert p[i..i + 2][0] == p[i];
        }
      }
      RemoveAllAbsent(p, Emphasis);
      StripTrimmed(p);
    }
  }

  /** On `*`-free fragments the loop collects exactly the non-blank stripped fragments. */
  lemma {:induction false} KeyPointsReference(frags: seq<string>)
    requires AllFree(frags, '*')
    ensures KeyPointsOf(frags) == NonBlankStripped(frags)
    decreases |frags|
  {
    if frags != [] {
      var f, rest := frags[0], frags[1..];
      assert frags == [f] + rest;
      KeyPointsAppend([f], rest);
      assert KeyPointsOf([f]) == PointOf(f) by {
        assert [f][..0] == [];
      }
      assert Free(f, '*');
      PointOfFree(f);
      assert AllFree(rest, '*') by {
        forall k | 0 <= k < |rest| ensures Free(rest[k], '*') {
          assert rest[k] == frags[k + 1];
        }
      }
      KeyPointsReference(rest);
    }
  }

  /** Every stripped fragment of `*`-free fragments is `*`-free. */
  lemma {:induction false} NonBlankStrippedFree(frags: seq<string>)
    requires AllFree(frags, '*')
    ensures AllFree(NonBlankStripped(frags), '*')
    decreases |frags|
  {
    if frags != [] {
      StripFree(frags[0], '*');
      NonBlankStrippedFree(frags[1..]);
    }
  }

  /** The fragments after the first `*` of a split on `*` hold no `*`. */
  lemma FragmentsFree(s: string)
    ensures AllFree(Split(s, Bullet)[1..], '*')
  {
    SplitCharFree(s, '*');
    var fs := Split(s, Bullet);
    forall k | 0 <= k < |fs[1..]| ensures Free(fs[1..][k], '*') {
      assert fs[1..][k] == fs[k + 1];
    }
  }

  /** Whatever the text, every key point is non-empty, trimmed and free of `*`. */
  lemma FormattedShape(text: string)
    ensures WellShaped(Formatted(text).keyPoints)
  {
    var parts := Split(text, KeyPointsMarker);
    if |parts| == 2 {
      var frags := Split(parts[1], Bullet)[1..];
      FragmentsFree(parts[1]);
      KeyPointsReference(frags);
      NonBlankStrippedFree(frags);
    }
  }

  /** Without the marker the raw text is the summary, untouched, and there are no key points. */
  lemma FallbackWithoutMarker(text: string)
    requires !Contains(text, KeyPointsMarker)
    ensures Formatted(text) == SummaryResult(text, [])
  {
    SplitAbsent(text, KeyPointsMarker);
  }

  /** Two non-overlapping markers also give the raw text back with no key points. */
  lemma FallbackWithRepeatedMarker(text: string, i: nat, j: nat)
    requires OccursAt(text, KeyPointsMarker, i) && OccursAt(text, KeyPointsMarker, j)
    requires i + |KeyPointsMarker| <= j
    ensures Formatted(text) == SummaryResult(text, [])
  {
    var m := |KeyPointsMarker|;
    var k := FirstFrom(text, KeyPointsMarker, 0, i);
    SplitAtFirst(text, KeyPointsMarker, k);
    var rest := text[k + m..];
    assert OccursAt(rest, KeyPointsMarker, j - (k + m)) by {
      assert rest[j - (k + m)..j - (k + m) + m] == text[j..j + m];
    }
    SplitOccurs(rest, KeyPointsMarker, j - (k + m));
  }

  /**
   * With a single marker, the summary is the text before it with the
   * `**Summary**` labels removed and stripped, and the key points are the
   * non-blank stripped `*`-fragments after it, in order, dropping the one
   * before the first `*`; there are no more of them than `*`s after the marker.
   */
  lemma SingleMarker(text: string, before: string, after: string)
    requires text == before + KeyPointsMarker + after
    requires forall i: nat :: i < |before| ==> !OccursAt(text, KeyPointsMarker, i)
    requires !Contains(after, KeyPointsMarker)
    ensures Formatted(text).summary == Strip(RemoveAll(before, SummaryLabel))
    ensures Formatted(text).keyPoints == NonBlankStripped(Split(after, Bullet)[1..])
    ensures |Formatted(text).keyPoints| <= multiset(after)['*']
  {
    var m := |KeyPointsMarker|;
    assert OccursAt(text, KeyPointsMarker, |before|) by {
      assert text[|before|..|before| + m] == KeyPointsMarker;
    }
    SplitAtFirst(text, KeyPointsMarker, |before|);
    assert text[..|before|] == before;
    assert text[|before| + m..] == after;
    SplitAbsent(after, KeyPointsMarker);
    assert Split(text, KeyPointsMarker) == [before, after];
    var frags := Split(after, Bullet)[1..];
    assert Formatted(text) == SummaryResult(Strip(RemoveAll(before, SummaryLabel)), KeyPointsOf(frags));
    FragmentsFree(after);
    KeyPointsReference(frags);
    SplitCharCount(after, '*');
  }
}
