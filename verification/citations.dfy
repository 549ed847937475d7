/** Citation de-duplication of a bot answer (BotResponse.jsx, lines 40-42).

    The source builds `new Map(citations.map(c => [c.title, c]))` and reads its
    `values()`. A JavaScript Map iterates its keys in insertion order, and a
    `set` on a key that is already present replaces the value without moving
    the key. So each distinct title keeps the position of its FIRST occurrence,
    and the citation stored there is the LAST one with that title. */
module Citations {
  import opened Optional

  /** A titled link to a source document. */
  datatype Citation = Citation(title: string, url: string)

  /** The titles of `cs`, position by position. */
  function Titles(cs: seq<Citation>): (ts: seq<string>)
    ensures |ts| == |cs|
    ensures forall i :: 0 <= i < |cs| ==> ts[i] == cs[i].title
  {
    seq(|cs|, i requires 0 <= i < |cs| => cs[i].title)
  }

  /** No two entries share a title: what a Map keyed by title holds. */
  predicate DistinctTitles(cs: seq<Citation>)
  {
    forall i, j :: 0 <= i < j < |cs| ==> cs[i].title != cs[j].title
  }

  /** No two strings of `ts` are equal. `DistinctTitles(cs)` says the same of
      `Titles(cs)`; it is stated on the entries directly so that the Map
      proofs need not unfold the title sequence. */
  predicate Distinct(ts: seq<string>)
  {
    forall i, j :: 0 <= i < j < |ts| ==> ts[i] != ts[j]
  }

  lemma TitlesCons(cs: seq<Citation>)
    requires cs != []
    ensures Titles(cs) == [cs[0].title] + Titles(cs[1..])
  {
  }

  lemma TitlesSnoc(cs: seq<Citation>)
    requires cs != []
    ensures Titles(cs) == Titles(cs[..|cs| - 1]) + [cs[|cs| - 1].title]
  {
  }

  // ---------------------------------------------------------------------------
  // The Map the source builds
  // ---------------------------------------------------------------------------

  /** `Map.prototype.set(c.title, c)` on a Map keyed by title, whose entries are
      listed in key-insertion order: an existing key keeps its place and gets
      the new value; a new key goes at the end. */
  function MapSet(entries: seq<Citation>, c: Citation): (r: seq<Citation>)
    requires DistinctTitles(entries)
    ensures c.title in Titles(entries) ==> |r| == |entries|
    ensures c.title !in Titles(entries) ==> |r| == |entries| + 1 && r[|entries|] == c
    ensures forall i :: 0 <= i < |entries| ==>
              r[i] == if entries[i].title == c.title then c else entries[i]
  {
    if entries == [] then [c]
    else if entries[0].title == c.title then
      assert forall i :: 0 < i < |entries| ==> entries[i].title != c.title;
      [c] + entries[1..]
    else
      var rest := MapSet(entries[1..], c);
      TitlesCons(entries);
      [entries[0]] + rest
  }

  /** `set` keeps the Map's keys distinct and in insertion order: an old key
      stays where it was, a new one is appended. */
  lemma MapSetKeys(entries: seq<Citation>, c: Citation)
    requires DistinctTitles(entries)
    ensures DistinctTitles(MapSet(entries, c))
    ensures Titles(MapSet(entries, c)) ==
              if c.title in Titles(entries) then Titles(entries) else Titles(entries) + [c.title]
  {
    var r := MapSet(entries, c);
    var before := Titles(entries);
    var after := if c.title in before then before else before + [c.title];
    assert |r| == |after|;
    forall i | 0 <= i < |r| ensures r[i].title == after[i] {
      if i < |entries| {
        assert r[i] == if entries[i].title == c.title then c else entries[i];
      }
    }
    assert Titles(r) == after;
    if c.title !in before {
      assert forall i :: 0 <= i < |entries| ==> before[i] != c.title;
    }
    assert Distinct(after);
  }

  /** `new Map(cs.map(c => [c.title, c])).values()`: the constructor calls
      `set` once per pair, from left to right. */
  function MapValues(cs: seq<Citation>): (r: seq<Citation>)
    ensures DistinctTitles(r)
    ensures Titles(r) == FirstSeenTitles(cs)
  {
    if cs == [] then []
    else
      var m := MapValues(cs[..|cs| - 1]);
      MapSetKeys(m, cs[|cs| - 1]);
      MapSet(m, cs[|cs| - 1])
  }

  /** `uniqueCitations`: a null or absent citation list gives the empty list. */
  function UniqueCitations(citations: Option<seq<Citation>>): (r: seq<Citation>)
    ensures citations.None? ==> r == []
    ensures DistinctTitles(r)
    ensures citations.Some? ==> |r| <= |citations.value|
  {
    match citations
    case None => []
    case Some(cs) => FirstSeenTitlesSpec(cs); MapValues(cs)
  }

  // ---------------------------------------------------------------------------
  // Reference definitions, independent of the Map
  // ---------------------------------------------------------------------------

  /** The distinct titles of `cs`, in the order in which each first occurs. */
  function FirstSeenTitles(cs: seq<Citation>): seq<string>
  {
    if cs == [] then []
    else
      var seen := FirstSeenTitles(cs[..|cs| - 1]);
      if cs[|cs| - 1].title in seen then seen else seen + [cs[|cs| - 1].title]
  }

  /** The reference title list holds each title of `cs` once and nothing else. */
  lemma {:induction false} FirstSeenTitlesSpec(cs: seq<Citation>)
    ensures Distinct(FirstSeenTitles(cs))
    ensures forall t :: t in FirstSeenTitles(cs) <==> t in Titles(cs)
    ensures |FirstSeenTitles(cs)| <= |cs|
  {
    if cs != [] {
      FirstSeenTitlesSpec(cs[..|cs| - 1]);
      TitlesSnoc(cs);
    }
  }

  /** The position of the last citation of `cs` whose title is `t`. */
  function LastIndex(cs: seq<Citation>, t: string): (k: nat)
    requires t in Titles(cs)
    ensures k < |cs| && cs[k].title == t
    ensures forall j :: k < j < |cs| ==> cs[j].title != t
  {
    var p := cs[..|cs| - 1];
    if cs[|cs| - 1].title == t then |cs| - 1
    else
      TitlesSnoc(cs);
      LastIndex(p, t)
  }

  /** The last citation of `cs` whose title is `t`. */
  function LastWithTitle(cs: seq<Citation>, t: string): Citation
    requires t in Titles(cs)
  {
    cs[LastIndex(cs, t)]
  }

  /** The position of the first citation of `cs` whose title is `t`. */
  function FirstIndex(cs: seq<Citation>, t: string): (k: nat)
    requires t in Titles(cs)
    ensures k < |cs| && cs[k].title == t
    ensures forall i :: 0 <= i < k ==> cs[i].title != t
  {
    if cs[0].title == t then 0
    else
      TitlesCons(cs);
      1 + FirstIndex(cs[1..], t)
  }

  // ---------------------------------------------------------------------------
  // What the de-duplication promises
  // ---------------------------------------------------------------------------

  /** Every title of the input appears exactly once among the titles of the
      output, and no other title does. */
  lemma EachTitleExactlyOnce(cs: seq<Citation>, t: string)
    ensures t in Titles(UniqueCitations(Some(cs))) <==> t in Titles(cs)
    ensures t in Titles(cs) ==>
              exists k :: 0 <= k < |UniqueCitations(Some(cs))| && UniqueCitations(Some(cs))[k].title == t &&
                forall i :: 0 <= i < |UniqueCitations(Some(cs))| && i != k ==>
                               UniqueCitations(Some(cs))[i].title != t
  {
    var r := UniqueCitations(Some(cs));
    FirstSeenTitlesSpec(cs);
    if t in Titles(cs) {
      var k :| 0 <= k < |r| && Titles(r)[k] == t;
      assert forall i :: 0 <= i < |r| && i != k ==> r[i].title != t;
    }
  }

  /** The citation kept under each title is the last input citation with that
      title (a later `set` overwrites the value). */
  lemma {:induction false} KeepsLastPerTitle(cs: seq<Citation>)
    ensures forall i :: 0 <= i < |MapValues(cs)| ==>
              MapValues(cs)[i].title in Titles(cs) &&
              MapValues(cs)[i] == LastWithTitle(cs, MapValues(cs)[i].title)
  {
    if cs != [] {
      var p, c := cs[..|cs| - 1], cs[|cs| - 1];
      var m := MapValues(p);
      KeepsLastPerTitle(p);
      FirstSeenTitlesSpec(cs);
      var r := MapValues(cs);
      assert r == MapSet(m, c);
      forall i | 0 <= i < |r|
        ensures r[i].title in Titles(cs) && r[i] == LastWithTitle(cs, r[i].title)
      {
        assert Titles(r)[i] in FirstSeenTitles(cs);
        if r[i].title == c.title {
          assert r[i] == c;
        } else {
          assert i < |m| && r[i] == m[i];
          LastWithTitleOfPrefix(cs, r[i].title);
        }
      }
    }
  }

  /** A title other than the last citation's has the same last citation in the
      prefix that drops it. */
  lemma LastWithTitleOfPrefix(cs: seq<Citation>, t: string)
    requires t in Titles(cs) && cs[|cs| - 1].title != t
    ensures t in Titles(cs[..|cs| - 1])
    ensures LastWithTitle(cs, t) == LastWithTitle(cs[..|cs| - 1], t)
  {
    TitlesSnoc(cs);
  }

  /** The whole de-duplication against its reference: one entry per distinct
      title, in first-seen order, each the last input citation with its title. */
  lemma UniqueCitationsMatchesReference(cs: seq<Citation>)
    ensures |UniqueCitations(Some(cs))| == |FirstSeenTitles(cs)|
    ensures forall i :: 0 <= i < |FirstSeenTitles(cs)| ==>
              FirstSeenTitles(cs)[i] in Titles(cs) &&
              UniqueCitations(Some(cs))[i] == LastWithTitle(cs, FirstSeenTitles(cs)[i])
  {
    KeepsLastPerTitle(cs);
    FirstSeenTitlesSpec(cs);
    var r := UniqueCitations(Some(cs));
    assert forall i :: 0 <= i < |r| ==> r[i].title == Titles(r)[i] == FirstSeenTitles(cs)[i];
  }

  /** The kept citations appear in the order in which their titles first occur
      in the input (the Map's keys are never moved). */
  lemma UniqueCitationsInFirstSeenOrder(cs: seq<Citation>)
    ensures forall i, j :: 0 <= i < j < |UniqueCitations(Some(cs))| ==>
              UniqueCitations(Some(cs))[i].title in Titles(cs) &&
              UniqueCitations(Some(cs))[j].title in Titles(cs) &&
              FirstIndex(cs, UniqueCitations(Some(cs))[i].title)
                < FirstIndex(cs, UniqueCitations(Some(cs))[j].title)
  {
    var r := UniqueCitations(Some(cs));
    FirstSeenTitlesSpec(cs);
    forall i, j | 0 <= i < j < |r|
      ensures r[i].title in Titles(cs) && r[j].title in Titles(cs) &&
              FirstIndex(cs, r[i].title) < FirstIndex(cs, r[j].title)
    {
      assert Titles(r)[i] in FirstSeenTitles(cs) && Titles(r)[j] in FirstSeenTitles(cs);
      FirstSeenTitlesOrdered(cs, i, j);
    }
  }

  lemma {:induction false} FirstSeenTitlesOrdered(cs: seq<Citation>, i: nat, j: nat)
    requires i < j < |FirstSeenTitles(cs)|
    ensures FirstSeenTitles(cs)[i] in Titles(cs) && FirstSeenTitles(cs)[j] in Titles(cs)
    ensures FirstIndex(cs, FirstSeenTitles(cs)[i]) < FirstIndex(cs, FirstSeenTitles(cs)[j])
  {
    var ts := FirstSeenTitles(cs);
    FirstSeenTitlesSpec(cs);
    assert ts[i] in ts && ts[j] in ts;
    var p, c := cs[..|cs| - 1], cs[|cs| - 1];
    var seen := FirstSeenTitles(p);
    FirstSeenTitlesSpec(p);
    TitlesSnoc(cs);
    if j < |seen| {
      FirstSeenTitlesOrdered(p, i, j);
      assert seen[i] in seen && seen[j] in seen;
      FirstIndexOfPrefix(cs, seen[i]);
      FirstIndexOfPrefix(cs, seen[j]);
    } else {
      assert ts[j] == c.title && c.title !in Titles(p);
      assert seen[i] in seen;
      FirstIndexOfPrefix(cs, seen[i]);
      assert FirstIndex(cs, c.title) == |p|;
    }
  }

  /** A title already present before the last citation keeps its first index. */
  lemma FirstIndexOfPrefix(cs: seq<Citation>, t: string)
    requires cs != [] && t in Titles(cs[..|cs| - 1])
    ensures t in Titles(cs)
    ensures FirstIndex(cs, t) == FirstIndex(cs[..|cs| - 1], t)
  {
    var p := cs[..|cs| - 1];
    var k := FirstIndex(p, t);
    assert cs[k] == p[k];
    TitlesSnoc(cs);
  }

  /** A list whose titles are already distinct passes through unchanged. */
  lemma {:induction false} DistinctIsFixedPoint(cs: seq<Citation>)
    requires DistinctTitles(cs)
    ensures MapValues(cs) == cs
  {
    if cs != [] {
      var p, c := cs[..|cs| - 1], cs[|cs| - 1];
      DistinctPrefix(cs);
      DistinctIsFixedPoint(p);
      assert MapValues(cs) == MapSet(p, c);
      SetOfNewTitleAppends(p, c);
      assert cs == p + [c];
    }
  }

  /** Dropping the last citation keeps the titles distinct, and the dropped
      title is not among the rest. */
  lemma DistinctPrefix(cs: seq<Citation>)
    requires cs != [] && DistinctTitles(cs)
    ensures DistinctTitles(cs[..|cs| - 1])
    ensures cs[|cs| - 1].title !in Titles(cs[..|cs| - 1])
  {
    var p := cs[..|cs| - 1];
    assert forall i :: 0 <= i < |p| ==> p[i] == cs[i];
    forall i | 0 <= i < |p| ensures Titles(p)[i] != cs[|cs| - 1].title {
      assert Titles(p)[i] == cs[i].title;
    }
  }

  /** `set` with a title not yet in the Map appends the citation. */
  lemma SetOfNewTitleAppends(entries: seq<Citation>, c: Citation)
    requires DistinctTitles(entries) && c.title !in Titles(entries)
    ensures MapSet(entries, c) == entries + [c]
  {
    var r := MapSet(entries, c);
    forall i | 0 <= i < |entries| ensures r[i] == entries[i] {
      assert Titles(entries)[i] == entries[i].title;
    }
  }

  /** De-duplicating twice is the same as de-duplicating once. */
  lemma UniqueCitationsIdempotent(citations: Option<seq<Citation>>)
    ensures UniqueCitations(Some(UniqueCitations(citations))) == UniqueCitations(citations)
    ensures |UniqueCitations(citations)| <= (if citations.Some? then |citations.value| else 0)
  {
    DistinctIsFixedPoint(UniqueCitations(citations));
  }

  /** `[A/u1, B/u2, A/u3]` becomes `[A/u3, B/u2]`: first position, last value. */
  lemma LaterDuplicateOverwritesEarlier()
    ensures UniqueCitations(Some([Citation("A", "u1"), Citation("B", "u2"), Citation("A", "u3")]))
         == [Citation("A", "u3"), Citation("B", "u2")]
  {
    var a1, b2, a3 := Citation("A", "u1"), Citation("B", "u2"), Citation("A", "u3");
    var cs := [a1, b2, a3];
    assert cs[..2] == [a1, b2] && [a1, b2][..1] == [a1] && [a1][..0] == [];
    assert MapValues([a1]) == MapSet([], a1) == [a1];
    assert MapValues([a1, b2]) == MapSet([a1], b2) == [a1, b2];
    assert MapSet([a1, b2], a3) == [a3, b2];
  }
}
