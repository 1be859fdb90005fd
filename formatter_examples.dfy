/** Edge cases of the response formatter's marker parsing, shown on concrete texts. */
module FormatterExamples {
  import opened PyStr
  import opened ResponseFormatter

  /**
   * Two overlapping markers split only once, so such a text is not given back
   * unchanged: the fallback needs two occurrences that do not overlap.
   * The text is `**Key Points:**Key Points:**`.
   */
  lemma OverlappingMarkersExample(text: string)
    requires text == KeyPointsMarker + KeyPointsMarker[2..]
    ensures OccursAt(text, KeyPointsMarker, 0) && OccursAt(text, KeyPointsMarker, 13)
    ensures Formatted(text).summary == [] && Formatted(text) != SummaryResult(text, [])
  {
    var after := KeyPointsMarker[2..];
    assert text[..15] == KeyPointsMarker;
    assert text[13..28] == KeyPointsMarker by {
      assert text[13..15] == KeyPointsMarker[13..] == KeyPointsMarker[..2];
      assert text[15..28] == after;
    }
    assert text == [] + KeyPointsMarker + after;
    SingleMarker(text, [], after);
    assert RemoveAll([], SummaryLabel) == [];
  }

  /**
   * `replace` makes a single pass, so removing the label can glue the two
   * halves of a marker together: the summary then contains the marker although
   * the text before the marker did not. The text is
   * `**Key P**Summary**oints:****Key Points:**`.
   */
  lemma SummaryMayHoldMarkerExample(before: string, text: string)
    requires before == KeyPointsMarker[..7] + SummaryLabel + KeyPointsMarker[7..]
    requires text == before + KeyPointsMarker
    ensures !Contains(before, KeyPointsMarker)
    ensures Formatted(text).summary == KeyPointsMarker
  {
    GluedMarkerFirst(before, text);
    assert !Contains(before, KeyPointsMarker) by {
      forall i: nat | OccursAt(before, KeyPointsMarker, i) ensures OccursAt(text, KeyPointsMarker, i) {
        assert text[i..i + |KeyPointsMarker|] == before[i..i + |KeyPointsMarker|];
      }
    }
    assert !Contains([], KeyPointsMarker);
    assert text == before + KeyPointsMarker + [];
    SingleMarker(text, before, []);
    GluedRemoval(before);
    StripTrimmed(KeyPointsMarker);
  }

  /** In the glued text the marker proper is the leftmost one. */
  lemma GluedMarkerFirst(before: string, text: string)
    requires before == KeyPointsMarker[..7] + SummaryLabel + KeyPointsMarker[7..]
    requires text == before + KeyPointsMarker
    ensures forall i: nat :: i < |before| ==> !OccursAt(text, KeyPointsMarker, i)
  {
    assert 'K' !in KeyPointsMarker[3..7];
    assert 'K' !in SummaryLabel;
    assert 'K' !in KeyPointsMarker[7..];
    forall i: nat | i < |before| && i + |KeyPointsMarker| <= |text| ensures !OccursAt(text, KeyPointsMarker, i) {
      if i == 0 {
        assert text[i..i + |KeyPointsMarker|][7] == text[7] == SummaryLabel[0];
      } else {
        assert text[i..i + |KeyPointsMarker|][2] == text[i + 2];
        if i + 2 < 7 {
          assert text[i + 2] == KeyPointsMarker[3..7][i - 1];
        } else if i + 2 < 18 {
          assert text[i + 2] == SummaryLabel[i + 2 - 7];
        } else if i + 2 < 26 {
          assert text[i + 2] == KeyPointsMarker[7..][i + 2 - 18];
        } else {
          assert text[i + 2] == KeyPointsMarker[i + 2 - 26];
        }
      }
    }
  }

  /** Removing the label from the glued text leaves exactly the marker. */
  lemma GluedRemoval(before: string)
    requires before == KeyPointsMarker[..7] + SummaryLabel + KeyPointsMarker[7..]
    ensures RemoveAll(before, SummaryLabel) == KeyPointsMarker
  {
    assert OccursAt(before, SummaryLabel, 7) by {
      assert before[7..18] == SummaryLabel;
    }
    assert 'S' !in KeyPointsMarker[2..7];
    forall i: nat | i < 7 ensures !OccursAt(before, SummaryLabel, i) {
      assert before[i..i + |SummaryLabel|][2] == before[i + 2];
      if i + 2 < 7 {
        assert before[i + 2] == KeyPointsMarker[2..7][i];
      } else {
        assert before[i + 2] == SummaryLabel[i + 2 - 7];
      }
    }
    RemoveAllAtFirst(before, SummaryLabel, 7);
    assert before[..7] == KeyPointsMarker[..7] && before[18..] == KeyPointsMarker[7..];
    assert KeyPointsMarker[..7] + KeyPointsMarker[7..] == KeyPointsMarker;
  }
}
