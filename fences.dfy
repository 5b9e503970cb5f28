/** Markdown code fences as the bot and the crew wrapper scrape them with `re.findall`. */
module Fences {
  import opened Wrappers
  import opened Text

  /** The closing fence, and the prefix every opener starts with. */
  const Close: string := "```"
  /** Openers of the three patterns `r'```python\n(.*?)```'`, `r'```py\n(.*?)```'` and `r'```\n(.*?)```'`. */
  const PythonOpen: string := "```python\n"
  const PyOpen: string := "```py\n"
  const BareOpen: string := "```\n"
  /** The marker both callers test with `in` before scanning for python blocks. */
  const PythonMarker: string := "```python"

  /** `t` holds no run of three backticks. */
  ghost predicate NoFence(t: string) {
    forall j :: !IsAt(t, Close, j)
  }

  /** The pattern `o(.*?)```` (with DOTALL) can match with its opener at `p` and its
      closer at `q`; the group is then `t[p + |o|..q]`. */
  predicate BlockAt(t: string, o: string, p: nat, q: nat) {
    p + |o| <= q && IsAt(t, o, p) && IsAt(t, Close, q)
  }

  /** Some match of `o(.*?)```` starts at or after `from`. */
  ghost predicate HasBlockFrom(t: string, o: string, from: nat) {
    exists p: nat, q: nat :: from <= p && BlockAt(t, o, p, q)
  }

  /** The span `m` (opener position, closer position) is a match of `o(.*?)```` at or after
      `from`: an opener followed by the nearest closer after it (the lazy `.*?`). */
  ghost predicate IsMatch(t: string, o: string, from: nat, m: (nat, nat)) {
    from <= m.0 && IsAt(t, o, m.0) && FirstAt(t, Close, m.0 + |o|, m.1)
  }

  /** `spans` are the matches `re.findall(o + '(.*?)```', t[from:], re.DOTALL)` reports, left to
      right: none when no block starts at or after `from`; otherwise a first match whose opener
      is the leftmost one at or after `from` and whose closer is the nearest after that opener,
      followed by the matches of the scan resumed after that closer. */
  ghost predicate ScanOf(t: string, o: string, from: nat, spans: seq<(nat, nat)>)
    decreases |spans|
  {
    if spans == [] then !HasBlockFrom(t, o, from)
    else
      && IsMatch(t, o, from, spans[0]) && FirstAt(t, o, from, spans[0].0)
      && ScanOf(t, o, spans[0].1 + |Close|, spans[1..])
  }

  /** The scan `findall` performs: find the opener, then the nearest closer after it, and resume
      after that closer. When an opener has no closer, no later opener can have one either, so the
      scan ends there. */
  function MatchSpans(t: string, o: string, from: nat): (spans: seq<(nat, nat)>)
    ensures ScanOf(t, o, from, spans)
    decreases |t| - from
  {
    match FindFrom(t, o, from)
    case None =>
      NoOpenerNoBlock(t, o, from);
      []
    case Some(p) =>
      match FindFrom(t, Close, p + |o|)
      case None =>
        NoCloserNoBlock(t, o, from, p);
        []
      case Some(q) =>
        FirstSpan(t, o, from, p, q);
        var rest := MatchSpans(t, o, q + |Close|);
        assert ([(p, q)] + rest)[1..] == rest;
        [(p, q)] + rest
  }

  lemma NoOpenerNoBlock(t: string, o: string, from: nat)
    requires FindFrom(t, o, from).None?
    ensures !HasBlockFrom(t, o, from)
  {
  }

  /** When the leftmost opener has no closer after it, no later opener has one either. */
  lemma NoCloserNoBlock(t: string, o: string, from: nat, p: nat)
    requires FindFrom(t, o, from) == Some(p) && FindFrom(t, Close, p + |o|).None?
    ensures !HasBlockFrom(t, o, from)
  {
    assert forall p': nat, q: nat :: from <= p' && BlockAt(t, o, p', q) ==> p <= p';
  }

  lemma FirstSpan(t: string, o: string, from: nat, p: nat, q: nat)
    requires FindFrom(t, o, from) == Some(p) && FindFrom(t, Close, p + |o|) == Some(q)
    ensures IsMatch(t, o, from, (p, q)) && FirstAt(t, o, from, p)
  {
  }

  /** A scan is empty exactly when no block starts at or after `from`. */
  lemma ScanEmpty(t: string, o: string, from: nat, spans: seq<(nat, nat)>)
    requires ScanOf(t, o, from, spans)
    ensures spans == [] <==> !HasBlockFrom(t, o, from)
  {
    if spans != [] {
      assert BlockAt(t, o, spans[0].0, spans[0].1);
    }
  }

  /** Every span of a scan is a match at or after `from`: an opener with the nearest closer after
      it. */
  lemma {:induction false} ScanMatches(t: string, o: string, from: nat, spans: seq<(nat, nat)>)
    requires ScanOf(t, o, from, spans)
    ensures forall i :: 0 <= i < |spans| ==> IsMatch(t, o, from, spans[i])
    decreases |spans|
  {
    if spans != [] {
      var next := spans[0].1 + |Close|;
      ScanMatches(t, o, next, spans[1..]);
      forall i | 0 < i < |spans| ensures IsMatch(t, o, from, spans[i]) {
        assert spans[i] == spans[1..][i - 1];
      }
    }
  }

  /** After each match, the scan resumes with the leftmost opener after its closer. */
  lemma {:induction false} ScanResumes(t: string, o: string, from: nat, spans: seq<(nat, nat)>)
    requires ScanOf(t, o, from, spans)
    ensures forall i :: 0 <= i < |spans| - 1 ==> FirstAt(t, o, spans[i].1 + |Close|, spans[i + 1].0)
    decreases |spans|
  {
    if spans != [] {
      var rest := spans[1..];
      ScanResumes(t, o, spans[0].1 + |Close|, rest);
      forall i | 0 <= i < |spans| - 1 ensures FirstAt(t, o, spans[i].1 + |Close|, spans[i + 1].0) {
        if i > 0 {
          assert spans[i] == rest[i - 1] && spans[i + 1] == rest[i];
        }
      }
    }
  }

  /** No block starts after the closer of the last match. */
  lemma {:induction false} ScanEnds(t: string, o: string, from: nat, spans: seq<(nat, nat)>)
    requires ScanOf(t, o, from, spans) && spans != []
    ensures !HasBlockFrom(t, o, spans[|spans| - 1].1 + |Close|)
    decreases |spans|
  {
    if |spans| > 1 {
      ScanEnds(t, o, spans[0].1 + |Close|, spans[1..]);
    }
  }

  /** The group between a match's opener and its nearest closer holds no fence. */
  lemma GroupHasNoFence(t: string, start: nat, q: nat, b: string)
    requires FirstAt(t, Close, start, q) && b == t[start..q]
    ensures NoFence(b)
  {
    forall j | IsAt(b, Close, j) ensures false {
      IsAtInfix(b, t, start, Close, j);
    }
  }

  /** Every match lies inside `t`, its opener before its closer. */
  lemma MatchesInside(t: string, o: string, from: nat, spans: seq<(nat, nat)>)
    requires forall i :: 0 <= i < |spans| ==> IsMatch(t, o, from, spans[i])
    ensures forall i :: 0 <= i < |spans| ==> spans[i].0 + |o| <= spans[i].1 <= |t|
  {
    forall i | 0 <= i < |spans| ensures spans[i].0 + |o| <= spans[i].1 <= |t| {
      assert IsMatch(t, o, from, spans[i]);
    }
  }

  /** No group of a match holds a fence. */
  lemma MatchGroupsHaveNoFence(t: string, o: string, from: nat, spans: seq<(nat, nat)>, blocks: seq<string>)
    requires forall i :: 0 <= i < |spans| ==> IsMatch(t, o, from, spans[i])
    requires |blocks| == |spans|
    requires forall i :: 0 <= i < |blocks| ==>
      spans[i].0 + |o| <= spans[i].1 <= |t| && blocks[i] == t[spans[i].0 + |o|..spans[i].1]
    ensures forall i :: 0 <= i < |blocks| ==> NoFence(blocks[i])
  {
    forall i | 0 <= i < |blocks| ensures NoFence(blocks[i]) {
      assert IsMatch(t, o, from, spans[i]);
      GroupHasNoFence(t, spans[i].0 + |o|, spans[i].1, blocks[i]);
    }
  }

  /** The text between the opener and the closer of each span from the `k`-th on. */
  function Groups(t: string, o: string, spans: seq<(nat, nat)>, k: nat): (gs: seq<string>)
    requires k <= |spans|
    requires forall i :: 0 <= i < |spans| ==> spans[i].0 + |o| <= spans[i].1 <= |t|
    ensures |gs| == |spans| - k
    ensures forall i :: 0 <= i < |gs| ==> gs[i] == t[spans[k + i].0 + |o|..spans[k + i].1]
    decreases |spans| - k
  {
    if k == |spans| then []
    else [t[spans[k].0 + |o|..spans[k].1]] + Groups(t, o, spans, k + 1)
  }

  /** `blocks` are the groups of `spans`: the text between each opener and its closer. */
  ghost predicate GroupsOf(t: string, o: string, spans: seq<(nat, nat)>, blocks: seq<string>) {
    && |blocks| == |spans|
    && forall i :: 0 <= i < |spans| ==>
         spans[i].0 + |o| <= spans[i].1 <= |t| && blocks[i] == t[spans[i].0 + |o|..spans[i].1]
  }

  /** The groups `findall` returns: block `i` is the text between the opener and the closer of
      the `i`-th match of the scan. */
  function FindAllFrom(t: string, o: string, from: nat): (blocks: seq<string>)
    ensures GroupsOf(t, o, MatchSpans(t, o, from), blocks)
    ensures forall i :: 0 <= i < |blocks| ==> NoFence(blocks[i])
    ensures blocks == [] <==> !HasBlockFrom(t, o, from)
  {
    var spans := MatchSpans(t, o, from);
    ScanMatches(t, o, from, spans);
    ScanEmpty(t, o, from, spans);
    MatchesInside(t, o, from, spans);
    var blocks := Groups(t, o, spans, 0);
    MatchGroupsHaveNoFence(t, o, from, spans, blocks);
    blocks
  }

  lemma FoundGroup(t: string, o: string, from: nat, p: nat, q: nat, b: string)
    requires IsMatch(t, o, from, (p, q)) && q <= |t| && b == t[p + |o|..q]
    ensures exists p: nat, q: nat ::
      from <= p && BlockAt(t, o, p, q) && FindFrom(t, Close, p + |o|) == Some(q) && b == t[p + |o|..q]
  {
    FindFromFirstAt(t, Close, p + |o|, q);
    assert BlockAt(t, o, p, q);
  }

  /** Each block is the group of a match at or after `from` whose closer is the first one
      `find` reports after the opener. */
  lemma FindAllBlocks(t: string, o: string, from: nat)
    ensures var blocks := FindAllFrom(t, o, from);
      forall i :: 0 <= i < |blocks| ==> exists p: nat, q: nat ::
        from <= p && BlockAt(t, o, p, q) && FindFrom(t, Close, p + |o|) == Some(q) && blocks[i] == t[p + |o|..q]
  {
    var spans, blocks := MatchSpans(t, o, from), FindAllFrom(t, o, from);
    ScanMatches(t, o, from, spans);
    forall i | 0 <= i < |blocks|
      ensures exists p: nat, q: nat ::
        from <= p && BlockAt(t, o, p, q) && FindFrom(t, Close, p + |o|) == Some(q) && blocks[i] == t[p + |o|..q]
    {
      var p, q := spans[i].0, spans[i].1;
      assert IsMatch(t, o, from, (p, q));
      FoundGroup(t, o, from, p, q, blocks[i]);
    }
  }

  /** The first block belongs to the opener `find` reports first and the closer `find` reports
      after it. */
  lemma FindAllFirstBlock(t: string, o: string, from: nat)
    ensures var blocks := FindAllFrom(t, o, from);
      blocks != [] ==> exists q: nat ::
        FindFrom(t, o, from).Some? && FindFrom(t, Close, FindFrom(t, o, from).value + |o|) == Some(q)
        && blocks[0] == t[FindFrom(t, o, from).value + |o|..q]
  {
    var spans := MatchSpans(t, o, from);
    if spans != [] {
      FindFromFirstAt(t, o, from, spans[0].0);
      FindFromFirstAt(t, Close, spans[0].0 + |o|, spans[0].1);
    }
  }

  function FindAll(t: string, o: string): (blocks: seq<string>)
  {
    FindAllFrom(t, o, 0)
  }

  /** Text without three backticks in a row has no fenced block of any kind. */
  lemma NoFenceNoBlocks(t: string, o: string)
    requires NoFence(t)
    ensures FindAll(t, o) == []
  {
  }

  /** A fenced block inside an infix is a fenced block of the whole string, so an infix of a
      string without blocks has none. */
  lemma NoBlocksInfix(r: string, s: string, k: nat, o: string)
    requires InfixAt(r, s, k) && FindAll(s, o) == []
    ensures FindAll(r, o) == []
  {
    forall p: nat, q: nat | BlockAt(r, o, p, q) ensures false {
      IsAtInfix(r, s, k, o, p);
      IsAtInfix(r, s, k, Close, q);
      assert BlockAt(s, o, k + p, k + q);
    }
  }

  /** The index `max(blocks, key=len)` picks: a longest element, and the first of the longest
      ones (Python's `max` only replaces its candidate on a strictly larger key). */
  function LongestIndex(blocks: seq<string>): (k: nat)
    requires |blocks| > 0
    ensures k < |blocks|
    ensures forall j :: 0 <= j < |blocks| ==> |blocks[j]| <= |blocks[k]|
    ensures forall j :: 0 <= j < k ==> |blocks[j]| < |blocks[k]|
  {
    if |blocks| == 1 then 0
    else
      var k := LongestIndex(blocks[..|blocks| - 1]);
      if |blocks[|blocks| - 1]| > |blocks[k]| then |blocks| - 1 else k
  }
}
