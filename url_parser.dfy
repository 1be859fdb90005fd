/**
 * The URL parser (`extract_video_id`): Python's `re.match` of the pattern
 *
 *   (https?://)?(www\.)?(youtube|youtu|youtube-nocookie)\.(com|be)/(watch\?v=|embed/|v/|.+\?v=)?([^&=%\?]{11})
 *
 * written out as a backtracking matcher. The engine tries the alternatives of
 * each part in order (an optional group first with, then without, its body;
 * `.+` longest first) and the first complete match wins. `re.match` anchors
 * at the start only, so whatever follows the 11-character id is ignored.
 */
module UrlParser {
  import opened Wrappers
  import opened PyStr

  /** The texts each of the first six parts of the pattern can match, in the order they are tried. */
  const Schemes: seq<string> := ["https://", "http://", ""]
  const Subdomains: seq<string> := ["www.", ""]
  const Hosts: seq<string> := ["youtube", "youtu", "youtube-nocookie"]
  const Dots: seq<string> := ["."]
  const Tlds: seq<string> := ["com", "be"]
  const Slashes: seq<string> := ["/"]
  const Parts: seq<seq<string>> := [Schemes, Subdomains, Hosts, Dots, Tlds, Slashes]

  /** The fixed alternatives of group 5, tried before `.+\?v=` and before skipping the group. */
  const PathLiterals: seq<string> := ["watch?v=", "embed/", "v/"]
  const Query: string := "?v="
  const IdLength: nat := 11

  /** A character of `[^&=%\?]`. */
  predicate IdChar(c: char)
  {
    c != '&' && c != '=' && c != '%' && c != '?'
  }

  /** A run of exactly eleven id characters: what group 6 captures. */
  predicate IsId(s: string)
  {
    |s| == IdLength && forall k :: 0 <= k < |s| ==> IdChar(s[k])
  }

  /** Python's `.` without the DOTALL flag matches anything but a newline. */
  predicate AnyChar(c: char)
  {
    c != '\n'
  }

  /** A text matched by `.+\?v=`. */
  predicate IsDotsQuery(t: string)
  {
    |t| > |Query| && t[|t| - |Query|..] == Query && forall k :: 0 <= k < |t| - |Query| ==> AnyChar(t[k])
  }

  /** A text matched by the optional group 5. */
  predicate IsPathPrefix(t: string)
  {
    t in PathLiterals || IsDotsQuery(t) || t == []
  }

  /**
   * The pattern with leading parts `parts` matches a prefix of `url`, with
   * `pieces` the texts matched by its eight parts: one alternative of each of
   * the six leading parts, group 5 and the id.
   */
  predicate MatchesWith(parts: seq<seq<string>>, url: string, pieces: seq<string>)
  {
    |parts| == 6 && |pieces| == 8
    && (forall l :: 0 <= l < 6 ==> pieces[l] in parts[l])
    && IsPathPrefix(pieces[6]) && IsId(pieces[7])
    && Join([], pieces) <= url
  }

  /** The URL pattern matches a prefix of `url`, with `pieces` the texts its eight parts matched. */
  predicate Matches(url: string, pieces: seq<string>)
  {
    MatchesWith(Parts, url, pieces)
  }

  /** Group 6 at position `p`. */
  function MatchId(s: string, p: nat): Option<string>
    requires p <= |s|
  {
    if p + IdLength <= |s| && IsId(s[p..p + IdLength]) then Some(s[p..p + IdLength]) else None
  }

  /** How far `.` can reach from `p`: the run of non-newline characters there. */
  function DotRun(s: string, p: nat): (n: nat)
    requires p <= |s|
    ensures p + n <= |s|
    ensures forall k :: p <= k < p + n ==> AnyChar(s[k])
    ensures p + n == |s| || !AnyChar(s[p + n])
    decreases |s| - p
  {
    if p < |s| && AnyChar(s[p]) then 1 + DotRun(s, p + 1) else 0
  }

  /** `\?v=` at `q`, followed by the id. */
  predicate QueryIdAt(s: string, q: nat)
  {
    OccursAt(s, Query, q) && MatchId(s, q + |Query|).Some?
  }

  /** `.+\?v=` then the id, for the `.+` covering `n` characters, then fewer, down to one. */
  function GreedyQuery(s: string, p: nat, n: nat): Option<(string, string)>
    requires p + n <= |s|
    decreases n
  {
    if n == 0 then None
    else if QueryIdAt(s, p + n) then
      Some((s[p..p + n + |Query|], MatchId(s, p + n + |Query|).value))
    else GreedyQuery(s, p, n - 1)
  }

  /** The literal alternatives of group 5 from the `i`-th on, each followed by the id. */
  function PathLiteral(s: string, p: nat, i: nat): Option<(string, string)>
    requires p <= |s| && i <= |PathLiterals|
    decreases |PathLiterals| - i
  {
    if i == |PathLiterals| then None
    else
      var lit := PathLiterals[i];
      if OccursAt(s, lit, p) && MatchId(s, p + |lit|).Some? then Some((lit, MatchId(s, p + |lit|).value))
      else PathLiteral(s, p, i + 1)
  }

  /** Group 5 and the id at `p`: the literals, then `.+\?v=`, then the empty alternative. */
  function MatchPath(s: string, p: nat): Option<(string, string)>
    requires p <= |s|
  {
    var lit := PathLiteral(s, p, 0);
    if lit.Some? then lit
    else
      var query := GreedyQuery(s, p, DotRun(s, p));
      if query.Some? then query
      else
        match MatchId(s, p)
        case Some(id) => Some(([], id))
        case None => None
  }

  /**
   * The backtracking search over the leading `parts`, then group 5 and the
   * id: part `l` tries its alternatives from the `i`-th on at `p`, each
   * followed by the rest of the pattern; `acc` holds what the parts before
   * `l` matched.
   */
  function MatchParts(parts: seq<seq<string>>, s: string, p: nat, l: nat, i: nat, acc: seq<string>): Option<seq<string>>
    requires |parts| == 6 && l <= 6 && p <= |s| && (l < 6 ==> i <= |parts[l]|)
    decreases 6 - l, if l < 6 then |parts[l]| - i else 0
  {
    if l == 6 then
      match MatchPath(s, p)
      case Some(rest) => Some(acc + [rest.0, rest.1])
      case None => None
    else if i == |parts[l]| then None
    else
      var alt := parts[l][i];
      var r := if OccursAt(s, alt, p) then MatchParts(parts, s, p + |alt|, l + 1, 0, acc + [alt]) else None;
      if r.Some? then r else MatchParts(parts, s, p, l, i + 1, acc)
  }

  /** `re.match(youtube_regex, url)`: the text each part matched, or None. */
  function Match(url: string): Option<seq<string>>
  {
    MatchParts(Parts, url, 0, 0, 0, [])
  }

  /** `extract_video_id(url)`: group 6 of the match, or None. */
  function ExtractVideoId(url: string): (r: Option<string>)
    ensures r.Some? ==> IsId(r.value)
  {
    match Match(url)
    case None => None
    case Some(pieces) => MatchSound(url); Some(pieces[7])
  }

  // ---------------------------------------------------------------------------
  // Soundness: whatever the matcher returns is a match of the pattern.

  /** Concatenation, `"".join`, of one more piece appends it. */
  lemma ConcatSnoc(ps: seq<string>, x: string)
    ensures Join([], ps + [x]) == Join([], ps) + x
  {
    if ps == [] {
      assert ps + [x] == [x];
    } else {
      JoinSnoc([], ps, x);
    }
  }

  lemma {:induction false} ConcatPrefix(ps: seq<string>, k: nat)
    requires k <= |ps|
    ensures Join([], ps[..k]) <= Join([], ps)
    decreases |ps| - k
  {
    if k < |ps| {
      var init := ps[..|ps| - 1];
      assert ps[..k] == init[..k];
      assert ps == init + [ps[|ps| - 1]];
      ConcatSnoc(init, ps[|ps| - 1]);
      ConcatPrefix(init, k);
    } else {
      assert ps[..k] == ps;
    }
  }

  /** What the parts before `l` have matched: a prefix of `s` ending at `p`. */
  predicate Partial(parts: seq<seq<string>>, s: string, p: nat, l: nat, acc: seq<string>)
  {
    |parts| == 6 && |acc| == l <= 6
    && (forall k :: 0 <= k < l ==> acc[k] in parts[k])
    && p == |Join([], acc)| && Join([], acc) <= s
  }

  lemma MatchIdSound(s: string, p: nat)
    requires p <= |s| && MatchId(s, p).Some?
    ensures IsId(MatchId(s, p).value) && p + IdLength <= |s| && s[p..p + IdLength] == MatchId(s, p).value
  {
  }

  lemma {:induction false} GreedyQuerySound(s: string, p: nat, n: nat)
    requires p + n <= |s|
    requires forall k :: p <= k < p + n ==> AnyChar(s[k])
    ensures GreedyQuery(s, p, n).Some? ==>
      var (pre, id) := GreedyQuery(s, p, n).value;
      IsDotsQuery(pre) && IsId(id) && p + |pre| + |id| <= |s| && s[p..p + |pre| + |id|] == pre + id
    decreases n
  {
    if n > 0 {
      if OccursAt(s, Query, p + n) && MatchId(s, p + n + |Query|).Some? {
        var pre, id := s[p..p + n + |Query|], MatchId(s, p + n + |Query|).value;
        MatchIdSound(s, p + n + |Query|);
        assert pre[|pre| - |Query|..] == s[p + n..p + n + |Query|];
        assert forall k :: 0 <= k < |pre| - |Query| ==> pre[k] == s[p + k];
        assert s[p..p + |pre| + |id|] == pre + id;
      } else {
        GreedyQuerySound(s, p, n - 1);
      }
    }
  }

  lemma {:induction false} PathLiteralSound(s: string, p: nat, i: nat)
    requires p <= |s| && i <= |PathLiterals|
    ensures PathLiteral(s, p, i).Some? ==>
      var (pre, id) := PathLiteral(s, p, i).value;
      pre in PathLiterals && IsId(id) && p + |pre| + |id| <= |s| && s[p..p + |pre| + |id|] == pre + id
    decreases |PathLiterals| - i
  {
    if i < |PathLiterals| {
      var lit := PathLiterals[i];
      if OccursAt(s, lit, p) && MatchId(s, p + |lit|).Some? {
        MatchIdSound(s, p + |lit|);
        assert s[p..p + |lit| + IdLength] == lit + MatchId(s, p + |lit|).value;
      } else {
        PathLiteralSound(s, p, i + 1);
      }
    }
  }

  lemma MatchPathSound(s: string, p: nat)
    requires p <= |s|
    ensures MatchPath(s, p).Some? ==>
      var (pre, id) := MatchPath(s, p).value;
      IsPathPrefix(pre) && IsId(id) && p + |pre| + |id| <= |s| && s[p..p + |pre| + |id|] == pre + id
  {
    PathLiteralSound(s, p, 0);
    GreedyQuerySound(s, p, DotRun(s, p));
    if MatchId(s, p).Some? {
      MatchIdSound(s, p);
      assert [] + MatchId(s, p).value == MatchId(s, p).value;
    }
  }

  /** Part `l` matching `alt` at `p` extends what the earlier parts matched. */
  lemma PartialStep(parts: seq<seq<string>>, s: string, p: nat, l: nat, acc: seq<string>, alt: string)
    requires l < 6 && Partial(parts, s, p, l, acc) && alt in parts[l] && OccursAt(s, alt, p)
    ensures Partial(parts, s, p + |alt|, l + 1, acc + [alt])
  {
    ConcatSnoc(acc, alt);
    assert s[..p + |alt|] == s[..p] + s[p..p + |alt|];
    assert forall k :: 0 <= k < l ==> (acc + [alt])[k] == acc[k];
  }

  /** Group 5 and the id matching `rest` at `p` complete a match. */
  lemma PartialFinish(parts: seq<seq<string>>, s: string, p: nat, acc: seq<string>, pre: string, id: string)
    requires Partial(parts, s, p, 6, acc) && IsPathPrefix(pre) && IsId(id)
    requires p + |pre| + |id| <= |s| && s[p..p + |pre| + |id|] == pre + id
    ensures MatchesWith(parts, s, acc + [pre, id])
  {
    var ps := acc + [pre, id];
    assert ps == (acc + [pre]) + [id];
    ConcatSnoc(acc, pre);
    ConcatSnoc(acc + [pre], id);
    assert Join([], ps) == Join([], acc) + pre + id;
    assert s[..p + |pre| + |id|] == s[..p] + s[p..p + |pre| + |id|];
    assert forall k :: 0 <= k < 6 ==> ps[k] == acc[k];
  }

  /** Once the first six parts have matched, what the search returns is a match. */
  lemma FinishSound(parts: seq<seq<string>>, s: string, p: nat, i: nat, acc: seq<string>)
    requires p <= |s| && Partial(parts, s, p, 6, acc)
    ensures MatchParts(parts, s, p, 6, i, acc).Some? ==>
      MatchesWith(parts, s, MatchParts(parts, s, p, 6, i, acc).value) && MatchParts(parts, s, p, 6, i, acc).value[..6] == acc
  {
    MatchPathSound(s, p);
    if MatchPath(s, p).Some? {
      PartialFinish(parts, s, p, acc, MatchPath(s, p).value.0, MatchPath(s, p).value.1);
      assert (acc + [MatchPath(s, p).value.0, MatchPath(s, p).value.1])[..6] == acc;
    }
  }

  /** One step of the search: the `i`-th alternative of part `l`, else the next one. */
  lemma MatchPartsStep(parts: seq<seq<string>>, s: string, p: nat, l: nat, i: nat, acc: seq<string>)
    requires |parts| == 6 && l < 6 && p <= |s| && i < |parts[l]|
    ensures OccursAt(s, parts[l][i], p) && MatchParts(parts, s, p + |parts[l][i]|, l + 1, 0, acc + [parts[l][i]]).Some? ==>
      MatchParts(parts, s, p, l, i, acc) == MatchParts(parts, s, p + |parts[l][i]|, l + 1, 0, acc + [parts[l][i]])
    ensures !(OccursAt(s, parts[l][i], p) && MatchParts(parts, s, p + |parts[l][i]|, l + 1, 0, acc + [parts[l][i]]).Some?) ==>
      MatchParts(parts, s, p, l, i, acc) == MatchParts(parts, s, p, l, i + 1, acc)
  {
  }

  /** Once every alternative of a part has failed, the search fails. */
  lemma MatchPartsExhausted(parts: seq<seq<string>>, s: string, p: nat, l: nat, acc: seq<string>)
    requires |parts| == 6 && l < 6 && p <= |s|
    ensures MatchParts(parts, s, p, l, |parts[l]|, acc) == None
  {
  }

  /** The search succeeds if the `i`-th alternative is there and the rest of the pattern matches after it. */
  lemma MatchPartsTakes(parts: seq<seq<string>>, s: string, p: nat, l: nat, i: nat, acc: seq<string>)
    requires |parts| == 6 && l < 6 && p <= |s| && i < |parts[l]|
    requires OccursAt(s, parts[l][i], p) && MatchParts(parts, s, p + |parts[l][i]|, l + 1, 0, acc + [parts[l][i]]).Some?
    ensures MatchParts(parts, s, p, l, i, acc).Some?
  {
    MatchPartsStep(parts, s, p, l, i, acc);
  }

  /** The search succeeds if it succeeds from the next alternative on. */
  lemma MatchPartsSkips(parts: seq<seq<string>>, s: string, p: nat, l: nat, i: nat, acc: seq<string>)
    requires |parts| == 6 && l < 6 && p <= |s| && i < |parts[l]|
    requires MatchParts(parts, s, p, l, i + 1, acc).Some?
    ensures MatchParts(parts, s, p, l, i, acc).Some?
  {
    MatchPartsStep(parts, s, p, l, i, acc);
  }

  lemma {:induction false} MatchPartsSound(parts: seq<seq<string>>, s: string, p: nat, l: nat, i: nat, acc: seq<string>)
    requires l <= 6 && p <= |s| && Partial(parts, s, p, l, acc) && (l < 6 ==> i <= |parts[l]|)
    ensures MatchParts(parts, s, p, l, i, acc).Some? ==>
      MatchesWith(parts, s, MatchParts(parts, s, p, l, i, acc).value) && MatchParts(parts, s, p, l, i, acc).value[..l] == acc
    decreases 6 - l, if l < 6 then |parts[l]| - i else 0, 1
  {
    if l == 6 {
      FinishSound(parts, s, p, i, acc);
    } else if i == |parts[l]| {
      MatchPartsExhausted(parts, s, p, l, acc);
    } else {
      AlternativeSound(parts, s, p, l, i, acc);
    }
  }

  /** Trying the `i`-th alternative of part `l`, then the later ones, yields only matches. */
  lemma {:induction false} AlternativeSound(parts: seq<seq<string>>, s: string, p: nat, l: nat, i: nat, acc: seq<string>)
    requires |parts| == 6 && l < 6 && p <= |s| && i < |parts[l]|
    requires Partial(parts, s, p, l, acc)
    ensures MatchParts(parts, s, p, l, i, acc).Some? ==>
      MatchesWith(parts, s, MatchParts(parts, s, p, l, i, acc).value) && MatchParts(parts, s, p, l, i, acc).value[..l] == acc
    decreases 6 - l, |parts[l]| - i, 0
  {
    var alt := parts[l][i];
    MatchPartsStep(parts, s, p, l, i, acc);
    if OccursAt(s, alt, p) && MatchParts(parts, s, p + |alt|, l + 1, 0, acc + [alt]).Some? {
      PartialStep(parts, s, p, l, acc, alt);
      MatchPartsSound(parts, s, p + |alt|, l + 1, 0, acc + [alt]);
      var r := MatchParts(parts, s, p + |alt|, l + 1, 0, acc + [alt]).value;
      assert r[..l] == r[..l + 1][..l] == (acc + [alt])[..l] == acc;
    } else {
      MatchPartsSound(parts, s, p, l, i + 1, acc);
    }
  }

  lemma MatchSound(url: string)
    ensures Match(url).Some? ==> Matches(url, Match(url).value)
  {
    assert Partial(Parts, url, 0, 0, []);
    MatchPartsSound(Parts, url, 0, 0, 0, []);
  }

  // ---------------------------------------------------------------------------
  // Completeness: whenever the pattern matches a prefix, the matcher finds a match.

  lemma {:induction false} GreedyQueryComplete(s: string, p: nat, n: nat, m: nat)
    requires 1 <= n <= m && p + m <= |s|
    requires OccursAt(s, Query, p + n) && MatchId(s, p + n + |Query|).Some?
    ensures GreedyQuery(s, p, m).Some?
    decreases m
  {
    if m > n && !(OccursAt(s, Query, p + m) && MatchId(s, p + m + |Query|).Some?) {
      GreedyQueryComplete(s, p, n, m - 1);
    }
  }

  lemma {:induction false} PathLiteralComplete(s: string, p: nat, i: nat, j: nat)
    requires p <= |s| && i <= j < |PathLiterals|
    requires OccursAt(s, PathLiterals[j], p) && MatchId(s, p + |PathLiterals[j]|).Some?
    ensures PathLiteral(s, p, i).Some?
    decreases j - i
  {
    if i < j {
      PathLiteralComplete(s, p, i + 1, j);
    }
  }

  /** A slice that spells `x + y` spells `x`, then `y`. */
  lemma SliceHalves(s: string, p: nat, x: string, y: string)
    requires p + |x| + |y| <= |s| && s[p..p + |x| + |y|] == x + y
    ensures s[p..p + |x|] == x && s[p + |x|..p + |x| + |y|] == y
  {
    forall k | 0 <= k < |x| ensures s[p..p + |x|][k] == x[k] {
      assert s[p + k] == s[p..p + |x| + |y|][k];
    }
    forall k | 0 <= k < |y| ensures s[p + |x|..p + |x| + |y|][k] == y[k] {
      assert s[p + |x| + k] == s[p..p + |x| + |y|][|x| + k];
    }
  }

  lemma MatchPathComplete(s: string, p: nat, pre: string, id: string)
    requires IsPathPrefix(pre) && IsId(id)
    requires p + |pre| + |id| <= |s| && s[p..p + |pre| + |id|] == pre + id
    ensures MatchPath(s, p).Some?
  {
    var q := p + |pre|;
    SliceHalves(s, p, pre, id);
    assert MatchId(s, q).Some?;
    if pre in PathLiterals {
      var j :| 0 <= j < |PathLiterals| && PathLiterals[j] == pre;
      PathLiteralComplete(s, p, 0, j);
    } else if pre == [] {
    } else {
      var n := |pre| - |Query|;
      assert s[p + n..p + n + |Query|] == pre[n..] by {
        forall k | p + n <= k < p + n + |Query| ensures s[k] == pre[k - p] {
          assert s[k] == s[p..p + |pre| + |id|][k - p];
        }
      }
      var run := DotRun(s, p);
      GreedyQueryComplete(s, p, n, run);
      assert GreedyQuery(s, p, DotRun(s, p)).Some?;
    }
  }

  /** The parts of a match before the `l`-th matched a prefix of `s`. */
  lemma MatchesPartial(parts: seq<seq<string>>, s: string, ps: seq<string>, l: nat)
    requires MatchesWith(parts, s, ps) && l <= 6
    ensures Partial(parts, s, |Join([], ps[..l])|, l, ps[..l])
    ensures l < 6 ==> OccursAt(s, ps[l], |Join([], ps[..l])|)
  {
    ConcatPrefix(ps, l);
    assert forall k :: 0 <= k < l ==> ps[..l][k] == ps[k];
    if l < 6 {
      ConcatNext(s, ps, l);
    }
  }

  /** In a prefix of `s` made of pieces, each piece follows the ones before it. */
  lemma ConcatNext(s: string, ps: seq<string>, l: nat)
    requires l < |ps| && Join([], ps) <= s
    ensures OccursAt(s, ps[l], |Join([], ps[..l])|)
  {
    ConcatPrefix(ps, l + 1);
    assert ps[..l + 1] == ps[..l] + [ps[l]];
    ConcatSnoc(ps[..l], ps[l]);
    var p := |Join([], ps[..l])|;
    assert s[p..p + |ps[l]|] == Join([], ps[..l + 1])[p..];
  }

  /** The last two parts of a match follow the first six in `s`. */
  lemma MatchesTail(parts: seq<seq<string>>, s: string, ps: seq<string>)
    requires MatchesWith(parts, s, ps)
    ensures var p := |Join([], ps[..6])|;
      p + |ps[6]| + |ps[7]| <= |s| && s[p..p + |ps[6]| + |ps[7]|] == ps[6] + ps[7]
  {
    var acc := ps[..6];
    assert ps == acc + [ps[6]] + [ps[7]];
    ConcatSnoc(acc, ps[6]);
    ConcatSnoc(acc + [ps[6]], ps[7]);
    var p := |Join([], acc)|;
    assert Join([], ps) == Join([], acc) + ps[6] + ps[7];
    assert s[p..p + |ps[6]| + |ps[7]|] == Join([], ps)[p..];
  }

  /** Part `l` of a match is among all the alternatives of that part. */
  lemma MatchesNextPart(parts: seq<seq<string>>, s: string, ps: seq<string>, l: nat)
    requires MatchesWith(parts, s, ps) && l <= 6
    ensures l < 6 ==> ps[l] in parts[l][0..]
  {
    if l < 6 {
      assert parts[l][0..] == parts[l];
    }
  }

  lemma InLaterAlternative(alts: seq<string>, i: nat, x: string)
    requires i < |alts| && x in alts[i..] && x != alts[i]
    ensures x in alts[i + 1..]
  {
    assert alts[i..] == [alts[i]] + alts[i + 1..];
  }

  /** Once the first six parts of a match have been retraced, the search succeeds. */
  lemma FinishComplete(parts: seq<seq<string>>, s: string, i: nat, ps: seq<string>)
    requires MatchesWith(parts, s, ps)
    ensures |Join([], ps[..6])| <= |s| && MatchParts(parts, s, |Join([], ps[..6])|, 6, i, ps[..6]).Some?
  {
    MatchesPartial(parts, s, ps, 6);
    MatchesTail(parts, s, ps);
    MatchPathComplete(s, |Join([], ps[..6])|, ps[6], ps[7]);
  }

  lemma {:induction false} MatchPartsComplete(parts: seq<seq<string>>, s: string, p: nat, l: nat, i: nat, acc: seq<string>, ps: seq<string>)
    requires l <= 6 && p <= |s| && Partial(parts, s, p, l, acc) && (l < 6 ==> i <= |parts[l]|)
    requires MatchesWith(parts, s, ps) && ps[..l] == acc
    requires l < 6 ==> ps[l] in parts[l][i..]
    ensures MatchParts(parts, s, p, l, i, acc).Some?
    decreases 6 - l, if l < 6 then |parts[l]| - i else 0
  {
    if l == 6 {
      FinishComplete(parts, s, i, ps);
    } else {
      var alt := parts[l][i];
      if alt == ps[l] {
        ConcatNext(s, ps, l);
        assert ps[..l + 1] == acc + [alt];
        PartialStep(parts, s, p, l, acc, alt);
        MatchesNextPart(parts, s, ps, l + 1);
        MatchPartsComplete(parts, s, p + |alt|, l + 1, 0, acc + [alt], ps);
        MatchPartsTakes(parts, s, p, l, i, acc);
      } else {
        InLaterAlternative(parts[l], i, ps[l]);
        MatchPartsComplete(parts, s, p, l, i + 1, acc, ps);
        MatchPartsSkips(parts, s, p, l, i, acc);
      }
    }
  }

  lemma MatchComplete(url: string, ps: seq<string>)
    requires Matches(url, ps)
    ensures Match(url).Some?
  {
    assert Partial(Parts, url, 0, 0, []);
    assert Parts[0][0..] == Parts[0];
    MatchPartsComplete(Parts, url, 0, 0, 0, [], ps);
  }

  // ---------------------------------------------------------------------------
  // What `extract_video_id` promises.

  /** A returned id is group 6 of some match of the pattern against a prefix of `url`. */
  lemma ExtractSound(url: string)
    ensures ExtractVideoId(url).Some? ==>
      exists ps :: Matches(url, ps) && ps[7] == ExtractVideoId(url).value
  {
    MatchSound(url);
  }

  /** If the pattern matches a prefix of `url` in any way, an id is returned. */
  lemma ExtractComplete(url: string, ps: seq<string>)
    requires Matches(url, ps)
    ensures ExtractVideoId(url).Some?
  {
    MatchComplete(url, ps);
  }

  /** None exactly when no prefix of `url` matches. */
  lemma ExtractNoneIff(url: string)
    ensures ExtractVideoId(url).None? <==> forall ps :: !Matches(url, ps)
  {
    ExtractSound(url);
    forall ps | Matches(url, ps)
      ensures ExtractVideoId(url).Some?
    {
      ExtractComplete(url, ps);
    }
  }

  /**
   * Anchoring at the start only: a URL that yields an id still yields one
   * whatever is appended (though not necessarily the same one).
   */
  lemma SuffixKeepsMatch(url: string, junk: string)
    ensures ExtractVideoId(url).Some? ==> ExtractVideoId(url + junk).Some?
  {
    ExtractSound(url);
    if ExtractVideoId(url).Some? {
      var ps :| Matches(url, ps) && ps[7] == ExtractVideoId(url).value;
      assert Join([], ps) <= url + junk;
      ExtractComplete(url + junk, ps);
    }
  }

  lemma ConcatEight(ps: seq<string>)
    requires |ps| == 8
    ensures Join([], ps) == ps[0] + ps[1] + ps[2] + ps[3] + ps[4] + ps[5] + ps[6] + ps[7]
  {
    forall k | 0 <= k < 8
      ensures Join([], ps[..k + 1]) == Join([], ps[..k]) + ps[k]
    {
      assert ps[..k + 1] == ps[..k] + [ps[k]];
      ConcatSnoc(ps[..k], ps[k]);
    }
    assert ps[..0] == [];
    assert ps[..8] == ps;
  }

  /** Host, dot, top-level domain, slash and id make every match at least 20 characters long. */
  lemma MatchLength(url: string, ps: seq<string>)
    requires Matches(url, ps)
    ensures |url| >= 20
  {
    ConcatEight(ps);
    assert |ps[2]| >= 5 && |ps[3]| == 1 && |ps[4]| >= 2 && |ps[5]| == 1;
  }

  /** Text that is too short to be a link yields None. */
  lemma ShortTextHasNoId(url: string)
    requires |url| < 20
    ensures ExtractVideoId(url) == None
  {
    ExtractSound(url);
    if ExtractVideoId(url).Some? {
      var ps :| Matches(url, ps) && ps[7] == ExtractVideoId(url).value;
      MatchLength(url, ps);
    }
  }

  lemma NotAUrl()
    ensures ExtractVideoId("not a url") == None
  {
    ShortTextHasNoId("not a url");
  }

  /** The canonical link: the first alternative of every part matches. */
  lemma WatchUrl(id: string, rest: string)
    requires IsId(id)
    ensures ExtractVideoId(Schemes[0] + Subdomains[0] + Hosts[0] + Dots[0] + Tlds[0] + Slashes[0] + PathLiterals[0] + id + rest) == Some(id)
  {
    var parts := [Schemes[0], Subdomains[0], Hosts[0], Dots[0], Tlds[0], Slashes[0], PathLiterals[0]];
    var s := parts[0] + parts[1] + parts[2] + parts[3] + parts[4] + parts[5] + parts[6] + id + rest;
    var acc0: seq<string> := [];
    var p0 := 0;
    assert OccursAt(s, parts[0], 0);
    assert OccursAt(s, parts[1], 8);
    assert OccursAt(s, parts[2], 12);
    assert OccursAt(s, parts[3], 19);
    assert OccursAt(s, parts[4], 20);
    assert OccursAt(s, parts[5], 23);
    assert OccursAt(s, parts[6], 24);
    assert s[32..43] == id;
    assert MatchPath(s, 24) == Some((parts[6], id));
    assert MatchParts(Parts, s, 24, 6, 0, parts[..6]) == Some(parts[..6] + [parts[6], id]);
    assert parts[..5] + [parts[5]] == parts[..6];
    assert MatchParts(Parts, s, 23, 5, 0, parts[..5]) == MatchParts(Parts, s, 24, 6, 0, parts[..6]);
    assert parts[..4] + [parts[4]] == parts[..5];
    assert MatchParts(Parts, s, 20, 4, 0, parts[..4]) == MatchParts(Parts, s, 23, 5, 0, parts[..5]);
    assert parts[..3] + [parts[3]] == parts[..4];
    assert MatchParts(Parts, s, 19, 3, 0, parts[..3]) == MatchParts(Parts, s, 20, 4, 0, parts[..4]);
    assert parts[..2] + [parts[2]] == parts[..3];
    assert MatchParts(Parts, s, 12, 2, 0, parts[..2]) == MatchParts(Parts, s, 19, 3, 0, parts[..3]);
    assert parts[..1] + [parts[1]] == parts[..2];
    assert MatchParts(Parts, s, 8, 1, 0, parts[..1]) == MatchParts(Parts, s, 12, 2, 0, parts[..2]);
    assert [] + [parts[0]] == parts[..1];
    assert MatchParts(Parts, s, 0, 0, 0, []) == MatchParts(Parts, s, 8, 1, 0, parts[..1]);
  }

  /** The canonical link's text before the id. */
  lemma WatchPrefix(url: string, id: string)
    requires url == "https://www.youtube.com/watch?v=dQw4w9WgXcQ" && id == "dQw4w9WgXcQ"
    ensures url == Schemes[0] + Subdomains[0] + Hosts[0] + Dots[0] + Tlds[0] + Slashes[0] + PathLiterals[0] + id + []
  {
    assert Schemes[0] + Subdomains[0] + Hosts[0] + Dots[0] + Tlds[0] + Slashes[0] + PathLiterals[0]
      == "https://www.youtube.com/watch?v=";
  }

  lemma WatchUrlExample(url: string, id: string)
    requires url == "https://www.youtube.com/watch?v=dQw4w9WgXcQ" && id == "dQw4w9WgXcQ"
    ensures ExtractVideoId(url) == Some(id)
  {
    assert IsId(id);
    WatchUrl(id, []);
    WatchPrefix(url, id);
  }

  /** Which alternatives match where in a short link. */
  lemma ShortUrlText(s: string, tail: string)
    requires s == Schemes[0] + Hosts[1] + Dots[0] + Tlds[1] + Slashes[0] + tail
    ensures OccursAt(s, Schemes[0], 0)
    ensures !OccursAt(s, Subdomains[0], 8) && OccursAt(s, Subdomains[1], 8)
    ensures !OccursAt(s, Hosts[0], 8) && OccursAt(s, Hosts[1], 8)
    ensures OccursAt(s, Dots[0], 13)
    ensures !OccursAt(s, Tlds[0], 14) && OccursAt(s, Tlds[1], 14)
    ensures OccursAt(s, Slashes[0], 16)
  {
    assert s[8] == 'y';
    assert s[13] == '.';
    assert s[14] == 'b';
  }

  /**
   * On a short link the search backtracks out of `www.`, `youtube` and `com`,
   * then returns the id that group 5 and group 6 find after the slash.
   */
  lemma ShortUrl(tail: string)
    requires MatchPath(Schemes[0] + Hosts[1] + Dots[0] + Tlds[1] + Slashes[0] + tail, 17).Some?
    ensures ExtractVideoId(Schemes[0] + Hosts[1] + Dots[0] + Tlds[1] + Slashes[0] + tail)
      == Some(MatchPath(Schemes[0] + Hosts[1] + Dots[0] + Tlds[1] + Slashes[0] + tail, 17).value.1)
  {
    var s := Schemes[0] + Hosts[1] + Dots[0] + Tlds[1] + Slashes[0] + tail;
    ShortUrlText(s, tail);
    var parts := [Schemes[0], Subdomains[1], Hosts[1], Dots[0], Tlds[1], Slashes[0]];
    var rest := MatchPath(s, 17).value;
    assert MatchParts(Parts, s, 17, 6, 0, parts) == Some(parts + [rest.0, rest.1]);
    assert parts[..5] + [parts[5]] == parts;
    assert MatchParts(Parts, s, 16, 5, 0, parts[..5]) == MatchParts(Parts, s, 17, 6, 0, parts);
    assert parts[..4] + [parts[4]] == parts[..5];
    assert MatchParts(Parts, s, 14, 4, 1, parts[..4]) == MatchParts(Parts, s, 16, 5, 0, parts[..5]);
    assert MatchParts(Parts, s, 14, 4, 0, parts[..4]) == MatchParts(Parts, s, 14, 4, 1, parts[..4]);
    assert parts[..3] + [parts[3]] == parts[..4];
    assert MatchParts(Parts, s, 13, 3, 0, parts[..3]) == MatchParts(Parts, s, 14, 4, 0, parts[..4]);
    assert parts[..2] + [parts[2]] == parts[..3];
    assert MatchParts(Parts, s, 8, 2, 1, parts[..2]) == MatchParts(Parts, s, 13, 3, 0, parts[..3]);
    assert MatchParts(Parts, s, 8, 2, 0, parts[..2]) == MatchParts(Parts, s, 8, 2, 1, parts[..2]);
    assert parts[..1] + [parts[1]] == parts[..2];
    assert MatchParts(Parts, s, 8, 1, 1, parts[..1]) == MatchParts(Parts, s, 8, 2, 0, parts[..2]);
    assert MatchParts(Parts, s, 8, 1, 0, parts[..1]) == MatchParts(Parts, s, 8, 1, 1, parts[..1]);
    assert [] + [parts[0]] == parts[..1];
    assert MatchParts(Parts, s, 0, 0, 0, []) == MatchParts(Parts, s, 8, 1, 0, parts[..1]);
  }

  /** Without a `?` left in `s`, `.+\?v=` never matches. */
  lemma {:induction false} GreedyWithoutQuery(s: string, p: nat, n: nat)
    requires p + n <= |s| && forall k :: p <= k < |s| ==> s[k] != '?'
    ensures GreedyQuery(s, p, n) == None
    decreases n
  {
    if n > 0 {
      assert !OccursAt(s, Query, p + n) by {
        if p + n + |Query| <= |s| {
          assert s[p + n..p + n + |Query|][0] == s[p + n];
        }
      }
      GreedyWithoutQuery(s, p, n - 1);
    }
  }

  /** `.+` longer than `n` leaves no room for `?v=` and the id. */
  lemma {:induction false} GreedyTooLong(s: string, p: nat, n: nat, m: nat)
    requires n <= m && p + m <= |s| && p + n + |Query| + IdLength == |s|
    ensures GreedyQuery(s, p, m) == GreedyQuery(s, p, n)
    decreases m
  {
    if m > n {
      GreedyTooLong(s, p, n, m - 1);
    }
  }

  /**
   * `.+` is greedy: `.+\?v=` ends at the last `?v=` within reach that is
   * followed by an id, and fails only when there is none.
   */
  lemma {:induction false} GreedyQueryLongest(s: string, p: nat, m: nat)
    requires p + m <= |s|
    ensures GreedyQuery(s, p, m).Some? ==>
      var n := |GreedyQuery(s, p, m).value.0| - |Query|;
      1 <= n <= m && QueryIdAt(s, p + n)
      && GreedyQuery(s, p, m).value.1 == MatchId(s, p + n + |Query|).value
      && forall q: nat :: p + n < q <= p + m ==> !QueryIdAt(s, q)
    ensures GreedyQuery(s, p, m).None? ==> forall q: nat :: p < q <= p + m ==> !QueryIdAt(s, q)
    decreases m
  {
    if m > 0 && !QueryIdAt(s, p + m) {
      GreedyQueryLongest(s, p, m - 1);
    }
  }

  /** Right after the slash, a bare id with nothing after it is taken by the empty alternative. */
  lemma BareIdPath(s: string, p: nat, id: string)
    requires p + |id| == |s| && s[p..] == id && IsId(id)
    ensures MatchPath(s, p) == Some(([], id))
  {
    assert !OccursAt(s, PathLiterals[0], p) by {
      assert s[p + 5] == id[5] != '?';
    }
    assert PathLiteral(s, p, 0) == None;
    GreedyWithoutQuery(s, p, DotRun(s, p));
    assert s[p..p + IdLength] == id;
  }

  /** After an id-like run, `?v=` and a second id: `.+\?v=` swallows the first. */
  lemma QueryAfterIdPath(s: string, p: nat, first: string, second: string)
    requires p + |first| + |Query| + |second| == |s| && s[p..] == first + Query + second
    requires IsId(first) && IsId(second) && forall k :: 0 <= k < |first| ==> AnyChar(first[k])
    ensures MatchPath(s, p) == Some((first + Query, second))
  {
    var q := p + IdLength;
    assert s[p + 5] == first[5] != '?';
    assert s[q] == '?';
    assert !IsId(s[p + 6..p + 6 + IdLength]) by { assert s[p + 6..p + 6 + IdLength][5] == s[q]; }
    assert !IsId(s[p + 2..p + 2 + IdLength]) by { assert s[p + 2..p + 2 + IdLength][9] == s[q]; }
    assert PathLiteral(s, p, 0) == None;
    assert forall k :: p <= k < q + |Query| ==> AnyChar(s[k]) by {
      forall k | p <= k < q + |Query| ensures AnyChar(s[k]) {
        assert s[k] == (first + Query + second)[k - p];
      }
    }
    var run := DotRun(s, p);
    assert run >= IdLength;
    GreedyTooLong(s, p, IdLength, run);
    assert s[q..q + |Query|] == Query;
    assert s[q + |Query|..q + |Query| + IdLength] == second;
    assert s[p..q + |Query|] == first + Query;
  }

  /** A literal starting at `p` puts its `j`-th character at `p + j`. */
  lemma OccursAtChar(s: string, lit: string, p: nat, j: nat)
    requires j < |lit|
    ensures OccursAt(s, lit, p) ==> s[p + j] == lit[j]
  {
    if OccursAt(s, lit, p) {
      assert s[p..p + |lit|][j] == s[p + j];
    }
  }

  /** A `?` right after the first character rules out every literal alternative of group 5. */
  lemma QueryMarkSkipsLiterals(s: string, p: nat)
    requires p + 1 < |s| && s[p + 1] == '?'
    ensures PathLiteral(s, p, 0) == None
  {
    forall i | 0 <= i < |PathLiterals| ensures !OccursAt(s, PathLiterals[i], p) {
      OccursAtChar(s, PathLiterals[i], p, 1);
    }
    assert PathLiteral(s, p, 2) == None;
    assert PathLiteral(s, p, 1) == None;
  }

  /**
   * One character, `?v=`, an id-like run, `?v=` and a second id: the first
   * `?v=` is passed over for the second.
   */
  lemma LastQueryPath(s: string, p: nat, c: char, first: string, second: string)
    requires p + 1 + |Query| + |first| + |Query| + |second| == |s| && s[p..] == [c] + Query + first + Query + second
    requires AnyChar(c) && IsId(first) && IsId(second) && forall k :: 0 <= k < |first| ==> AnyChar(first[k])
    ensures MatchPath(s, p) == Some(([c] + Query + first + Query, second))
  {
    var tail := [c] + Query + first + Query + second;
    var q := p + 1 + |Query| + IdLength;
    assert s[p + 1] == tail[1] == '?';
    QueryMarkSkipsLiterals(s, p);
    assert forall k :: p <= k < q + |Query| ==> AnyChar(s[k]) by {
      forall k | p <= k < q + |Query| ensures AnyChar(s[k]) {
        assert s[k] == tail[k - p];
      }
    }
    var run := DotRun(s, p);
    assert run >= q - p;
    GreedyTooLong(s, p, q - p, run);
    assert s[q..q + |Query|] == Query;
    assert s[q + |Query|..q + |Query| + IdLength] == second;
    assert s[p..q + |Query|] == [c] + Query + first + Query;
  }

  /** "https://youtu.be/" followed by a bare id. */
  lemma ShortUrlId(id: string)
    requires IsId(id)
    ensures ExtractVideoId(Schemes[0] + Hosts[1] + Dots[0] + Tlds[1] + Slashes[0] + id) == Some(id)
  {
    var s := Schemes[0] + Hosts[1] + Dots[0] + Tlds[1] + Slashes[0] + id;
    BareIdPath(s, 17, id);
    ShortUrl(id);
  }

  /**
   * The id that `extract_video_id` returns is not fixed by a prefix: a short
   * link's id is replaced by one that follows a later `?v=`.
   */
  lemma LaterQueryWins(first: string, second: string)
    requires IsId(first) && IsId(second) && forall k :: 0 <= k < |first| ==> AnyChar(first[k])
    ensures ExtractVideoId(Schemes[0] + Hosts[1] + Dots[0] + Tlds[1] + Slashes[0] + first) == Some(first)
    ensures ExtractVideoId(Schemes[0] + Hosts[1] + Dots[0] + Tlds[1] + Slashes[0] + first + Query + second) == Some(second)
  {
    ShortUrlId(first);
    var tail := first + Query + second;
    var s := Schemes[0] + Hosts[1] + Dots[0] + Tlds[1] + Slashes[0] + tail;
    assert s == Schemes[0] + Hosts[1] + Dots[0] + Tlds[1] + Slashes[0] + first + Query + second;
    QueryAfterIdPath(s, 17, first, second);
    ShortUrl(tail);
  }

  /**
   * A lazy `.+` would stop at the first `?v=` and return `first`; the
   * greedy one returns `second`.
   */
  lemma GreedyPrefersLastQuery(c: char, first: string, second: string)
    requires AnyChar(c) && IsId(first) && IsId(second) && forall k :: 0 <= k < |first| ==> AnyChar(first[k])
    ensures ExtractVideoId(Schemes[0] + Hosts[1] + Dots[0] + Tlds[1] + Slashes[0] + [c] + Query + first + Query + second)
      == Some(second)
  {
    var tail := [c] + Query + first + Query + second;
    var s := Schemes[0] + Hosts[1] + Dots[0] + Tlds[1] + Slashes[0] + tail;
    assert s == Schemes[0] + Hosts[1] + Dots[0] + Tlds[1] + Slashes[0] + [c] + Query + first + Query + second;
    LastQueryPath(s, 17, c, first, second);
    ShortUrl(tail);
  }

  /** The example link with two queries, written as the parts of the pattern. */
  lemma TwoQueriesText(url: string, first: string, second: string)
    requires first == "AAAAAAAAAAA" && second == "BBBBBBBBBBB"
    requires url == "https://youtu.be/x?v=" + first + "?v=" + second
    ensures url == Schemes[0] + Hosts[1] + Dots[0] + Tlds[1] + Slashes[0] + ['x'] + Query + first + Query + second
  {
    ShortPrefix();
    assert "https://youtu.be/x?v=" == "https://youtu.be/" + ['x'] + Query;
  }

  /** `https://youtu.be/x?v=AAAAAAAAAAA?v=BBBBBBBBBBB` gives `BBBBBBBBBBB`. */
  lemma TwoQueriesExample(url: string, first: string, second: string)
    requires first == "AAAAAAAAAAA" && second == "BBBBBBBBBBB"
    requires url == "https://youtu.be/x?v=" + first + "?v=" + second
    ensures ExtractVideoId(url) == Some(second)
  {
    assert IsId(first) && IsId(second);
    assert forall k :: 0 <= k < |first| ==> AnyChar(first[k]);
    GreedyPrefersLastQuery('x', first, second);
    TwoQueriesText(url, first, second);
  }

  /** The alternatives a short link takes spell `https://youtu.be/`. */
  lemma ShortPrefix()
    ensures Schemes[0] + Hosts[1] + Dots[0] + Tlds[1] + Slashes[0] == "https://youtu.be/"
  {
  }

  lemma ShortUrlPrefix(url: string, id: string)
    requires url == "https://youtu.be/dQw4w9WgXcQ" && id == "dQw4w9WgXcQ"
    ensures url == Schemes[0] + Hosts[1] + Dots[0] + Tlds[1] + Slashes[0] + id
  {
    assert Schemes[0] + Hosts[1] + Dots[0] + Tlds[1] + Slashes[0] == "https://youtu.be/";
  }

  lemma ShortUrlExample(url: string, id: string)
    requires url == "https://youtu.be/dQw4w9WgXcQ" && id == "dQw4w9WgXcQ"
    ensures ExtractVideoId(url) == Some(id)
  {
    assert IsId(id);
    ShortUrlId(id);
    ShortUrlPrefix(url, id);
  }
}
