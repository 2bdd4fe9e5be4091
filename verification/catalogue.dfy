/** The catalogue of detected objects: a label-keyed record store in
    discovery order, where the first sighting of a label wins and every
    accepted label is announced exactly once. */
module Catalogue {
  import opened Wrappers
  import opened Geometry
  import opened Discovery

  type Label = string

  /** A detection offered to the catalogue. The confidence is opaque: it is
      stored unchanged and never compared. */
  datatype Candidate = Candidate(name: Label, box: Box, confidence: real)

  /** What the catalogue keeps about a label: the first sighting's
      confidence, time and box, the box's size, and where its crop is saved. */
  datatype Record = Record(
    confidence: real,
    time: string,
    box: Box,
    width: int,
    height: int,
    area: int,
    imagePath: string)

  datatype Entry = Entry(name: Label, record: Record)

  /** One spoken announcement of a newly catalogued detection, carrying the
      fields the sentence is built from. */
  datatype Narration = Narration(name: Label, record: Record)

  /** The catalogue in insertion order, with the announcements made so far. */
  datatype State = State(entries: seq<Entry>, narrations: seq<Narration>)

  const ImageDir: string := "detected_objects/"
  const ImageSuffix: string := ".jpg"

  /** Where a label's crop is saved: it depends on the label alone. */
  function ImagePath(name: Label): (p: string)
    ensures |p| == |ImageDir| + |name| + |ImageSuffix|
    ensures p[..|ImageDir|] == ImageDir && p[|p| - |ImageSuffix|..] == ImageSuffix
    ensures p[|ImageDir|..|p| - |ImageSuffix|] == name
  {
    ImageDir + name + ImageSuffix
  }

  /** Distinct labels never share an image file. */
  lemma ImagePathInjective(a: Label, b: Label)
    requires ImagePath(a) == ImagePath(b)
    ensures a == b
  {
    var p := ImagePath(a);
    assert a == p[|ImageDir|..|p| - |ImageSuffix|];
  }

  /** The size fields agree with the box, and the image path with the label. */
  predicate WellFormed(name: Label, r: Record) {
    && r.width == r.box.x2 - r.box.x1
    && r.height == r.box.y2 - r.box.y1
    && r.area == r.width * r.height
    && r.imagePath == ImagePath(name)
  }

  /** The record made for a newly accepted candidate at time `time`. */
  function NewRecord(c: Candidate, time: string): (r: Record)
    ensures WellFormed(c.name, r)
    ensures r.box == c.box && r.confidence == c.confidence && r.time == time
    ensures Ordered(c.box) ==> r.width >= 0 && r.height >= 0 && r.area >= 0
  {
    var width := c.box.x2 - c.box.x1;
    var height := c.box.y2 - c.box.y1;
    Record(c.confidence, time, c.box, width, height, width * height, ImagePath(c.name))
  }

  function Labels(entries: seq<Entry>): (ls: seq<Label>)
    ensures |ls| == |entries|
    ensures forall i | 0 <= i < |entries| :: ls[i] == entries[i].name
  {
    if entries == [] then [] else [entries[0].name] + Labels(entries[1..])
  }

  /** The record stored under `name`, if any. */
  function Lookup(entries: seq<Entry>, name: Label): (r: Option<Record>)
    ensures r.Some? <==> name in Labels(entries)
    ensures r.Some? ==> exists i | 0 <= i < |entries| :: entries[i] == Entry(name, r.value)
  {
    if entries == [] then None
    else if entries[0].name == name then Some(entries[0].record)
    else Lookup(entries[1..], name)
  }

  /** The catalogue's invariant: labels are unique keys, records are
      well formed, and the narrations are the entries, one for one, in
      the same order. */
  predicate Valid(s: State) {
    && NoDuplicates(Labels(s.entries))
    && (forall i | 0 <= i < |s.entries| :: WellFormed(s.entries[i].name, s.entries[i].record))
    && |s.narrations| == |s.entries|
    && forall i | 0 <= i < |s.entries| ::
         s.narrations[i] == Narration(s.entries[i].name, s.entries[i].record)
  }

  /** The catalogue when the session starts. */
  const Empty: State := State([], [])

  lemma EmptyValid()
    ensures Valid(Empty) && Labels(Empty.entries) == []
  {
  }

  /** With unique labels, the lookup finds the entry at any position. */
  lemma {:induction false} LookupAt(entries: seq<Entry>, i: nat)
    requires NoDuplicates(Labels(entries)) && i < |entries|
    ensures Lookup(entries, entries[i].name) == Some(entries[i].record)
  {
    if i > 0 {
      assert entries[0].name != entries[i].name;
      assert NoDuplicates(Labels(entries[1..])) by {
        assert forall k | 0 <= k < |entries| - 1 :: Labels(entries[1..])[k] == Labels(entries)[k + 1];
      }
      LookupAt(entries[1..], i - 1);
    }
  }

  /** Appending an entry adds its label and leaves other lookups alone. */
  lemma {:induction false} LookupAppend(entries: seq<Entry>, e: Entry, name: Label)
    requires e.name !in Labels(entries)
    ensures Lookup(entries + [e], name)
         == if name == e.name then Some(e.record) else Lookup(entries, name)
  {
    if entries != [] {
      assert (entries + [e])[1..] == entries[1..] + [e];
      LookupAppend(entries[1..], e, name);
    }
  }

  lemma {:induction false} LabelsAppend(entries: seq<Entry>, e: Entry)
    ensures Labels(entries + [e]) == Labels(entries) + [e.name]
  {
  }

  /** Appending an entry under a new label keeps the catalogue valid. */
  lemma AppendValid(s: State, e: Entry)
    requires WellFormed(e.name, e.record) && e.name !in Labels(s.entries)
    ensures Valid(s) ==> Valid(State(s.entries + [e], s.narrations + [Narration(e.name, e.record)]))
  {
    var s' := State(s.entries + [e], s.narrations + [Narration(e.name, e.record)]);
    LabelsAppend(s.entries, e);
    assert Labels(s'.entries) == Labels(s.entries) + [e.name];
  }

  /** Offers one detection. A label already in the catalogue is a no-op;
      a new label is appended with a fresh record and announced once. */
  function Offer(s: State, c: Candidate, time: string): (s': State)
    ensures c.name in Labels(s.entries) ==> s' == s
    ensures c.name !in Labels(s.entries) ==>
              && |s'.entries| == |s.entries| + 1
              && s'.entries[..|s.entries|] == s.entries
              && Labels(s'.entries) == Labels(s.entries) + [c.name]
              && s'.narrations == s.narrations + [Narration(c.name, NewRecord(c, time))]
    ensures Lookup(s'.entries, c.name)
         == if c.name in Labels(s.entries) then Lookup(s.entries, c.name)
            else Some(NewRecord(c, time))
    ensures forall l | l != c.name :: Lookup(s'.entries, l) == Lookup(s.entries, l)
    ensures Valid(s) ==> Valid(s')
  {
    if c.name in Labels(s.entries) then s
    else
      var e := Entry(c.name, NewRecord(c, time));
      LabelsAppend(s.entries, e);
      LookupAppend(s.entries, e, c.name);
      assert forall l | l != c.name :: Lookup(s.entries + [e], l) == Lookup(s.entries, l) by {
        forall l | l != c.name ensures Lookup(s.entries + [e], l) == Lookup(s.entries, l) {
          LookupAppend(s.entries, e, l);
        }
      }
      AppendValid(s, e);
      State(s.entries + [e], s.narrations + [Narration(e.name, e.record)])
  }

  /** Offering a label already offered changes nothing, whatever the box,
      confidence or time of the later offer. */
  lemma OfferIdempotent(s: State, c: Candidate, c': Candidate, time: string, time': string)
    requires c'.name == c.name
    ensures Offer(Offer(s, c, time), c', time') == Offer(s, c, time)
  {
  }

  /** Offers the candidates one after another, in sequence order. */
  function OfferAll(s: State, cs: seq<Candidate>, time: string): (s': State)
    ensures Valid(s) ==> Valid(s')
    ensures |s.entries| <= |s'.entries| && s'.entries[..|s.entries|] == s.entries
    decreases |cs|
  {
    if cs == [] then s
    else Offer(OfferAll(s, cs[..|cs| - 1], time), cs[|cs| - 1], time)
  }

  function CandidateLabels(cs: seq<Candidate>): (ls: seq<Label>)
    ensures |ls| == |cs|
    ensures forall i | 0 <= i < |cs| :: ls[i] == cs[i].name
  {
    seq(|cs|, i requires 0 <= i < |cs| => cs[i].name)
  }

  /** Offering a concatenation is offering each part in turn. */
  lemma {:induction false} OfferAllAppend(s: State, a: seq<Candidate>, b: seq<Candidate>, time: string)
    ensures OfferAll(s, a + b, time) == OfferAll(OfferAll(s, a, time), b, time)
    decreases |b|
  {
    if b == [] {
      assert a + b == a;
    } else {
      assert (a + b)[..|a + b| - 1] == a + b[..|b| - 1];
      OfferAllAppend(s, a, b[..|b| - 1], time);
    }
  }

  /** Discovery order: the catalogue's labels after a run of offers are the
      distinct labels of the old catalogue followed by the offers, each at
      its first occurrence. */
  lemma {:induction false} OfferAllLabels(s: State, cs: seq<Candidate>, time: string)
    requires NoDuplicates(Labels(s.entries))
    ensures Labels(OfferAll(s, cs, time).entries)
         == FirstOccurrences(Labels(s.entries) + CandidateLabels(cs))
    decreases |cs|
  {
    if cs == [] {
      assert Labels(s.entries) + CandidateLabels(cs) == Labels(s.entries);
      FirstOccurrencesOfDistinct(Labels(s.entries));
    } else {
      var init, c := cs[..|cs| - 1], cs[|cs| - 1];
      assert cs == init + [c];
      OfferAllLabels(s, init, time);
      OfferAllLabelsStep(s, init, c, time);
    }
  }

  /** One step of `OfferAllLabels`: offering one more candidate extends the
      first occurrences by its label. */
  lemma OfferAllLabelsStep(s: State, init: seq<Candidate>, c: Candidate, time: string)
    requires Labels(OfferAll(s, init, time).entries)
          == FirstOccurrences(Labels(s.entries) + CandidateLabels(init))
    ensures Labels(OfferAll(s, init + [c], time).entries)
         == FirstOccurrences(Labels(s.entries) + CandidateLabels(init + [c]))
  {
    var prefix := Labels(s.entries) + CandidateLabels(init);
    OfferAllSnoc(s, init, c, time);
    CandidateLabelsSnoc(Labels(s.entries), init, c);
    OfferLabels(OfferAll(s, init, time), c, time, prefix);
  }

  lemma OfferAllSnoc(s: State, init: seq<Candidate>, c: Candidate, time: string)
    ensures OfferAll(s, init + [c], time) == Offer(OfferAll(s, init, time), c, time)
  {
    assert (init + [c])[..|init|] == init;
  }

  lemma CandidateLabelsSnoc(before: seq<Label>, init: seq<Candidate>, c: Candidate)
    ensures before + CandidateLabels(init + [c]) == (before + CandidateLabels(init)) + [c.name]
  {
    assert CandidateLabels(init + [c]) == CandidateLabels(init) + [c.name];
  }

  /** Offering `c` extends the first occurrences of `prefix` by its label. */
  lemma OfferLabels(before: State, c: Candidate, time: string, prefix: seq<Label>)
    requires Labels(before.entries) == FirstOccurrences(prefix)
    ensures Labels(Offer(before, c, time).entries) == FirstOccurrences(prefix + [c.name])
  {
    FirstOccurrencesSnoc(prefix, c.name);
  }

  /** A label is in the catalogue after a run of offers exactly when it was
      there before or some candidate carried it. */
  lemma OfferAllMembers(s: State, cs: seq<Candidate>, time: string, name: Label)
    requires Valid(s)
    ensures name in Labels(OfferAll(s, cs, time).entries)
        <==> name in Labels(s.entries) || name in CandidateLabels(cs)
  {
    OfferAllLabels(s, cs, time);
    FirstOccurrencesMembers(Labels(s.entries) + CandidateLabels(cs), name);
  }

  /** The entries a run of offers adds carry new labels, each offered by
      some candidate, in the order their labels were first offered. */
  lemma OfferAllNewOrder(s: State, cs: seq<Candidate>, time: string)
    requires Valid(s)
    ensures var ls, n := Labels(OfferAll(s, cs, time).entries), |s.entries|;
            forall i | n <= i < |ls| :: ls[i] in CandidateLabels(cs) && ls[i] !in Labels(s.entries)
    ensures var ls, n := Labels(OfferAll(s, cs, time).entries), |s.entries|;
            forall i, j | n <= i < |ls| && n <= j < |ls|
                          && ls[i] in CandidateLabels(cs) && ls[j] in CandidateLabels(cs)
                          && FirstIndex(CandidateLabels(cs), ls[i]) < FirstIndex(CandidateLabels(cs), ls[j])
              :: i < j
  {
    var ls, n := Labels(OfferAll(s, cs, time).entries), |s.entries|;
    forall i | n <= i < |ls|
      ensures ls[i] in CandidateLabels(cs) && ls[i] !in Labels(s.entries)
    {
      OfferAllNewPair(s, cs, time, i, i);
    }
    forall i, j | n <= i < |ls| && n <= j < |ls|
                  && ls[i] in CandidateLabels(cs) && ls[j] in CandidateLabels(cs)
                  && FirstIndex(CandidateLabels(cs), ls[i]) < FirstIndex(CandidateLabels(cs), ls[j])
      ensures i < j
    {
      OfferAllNewPair(s, cs, time, i, j);
    }
  }

  /** The labels after offering: the old labels first, then the first
      occurrences of everything offered. */
  lemma OfferAllLabelsPrefix(s: State, cs: seq<Candidate>, time: string)
    requires Valid(s)
    ensures var ls := Labels(OfferAll(s, cs, time).entries);
            && ls == FirstOccurrences(Labels(s.entries) + CandidateLabels(cs))
            && |s.entries| <= |ls|
            && ls[..|s.entries|] == Labels(s.entries)
  {
    var s' := OfferAll(s, cs, time);
    OfferAllLabels(s, cs, time);
    assert s'.entries[..|s.entries|] == s.entries;
  }

  /** A position past the old entries holds a label offered in `cs` and
      absent before. */
  lemma OfferAllNewLabel(s: State, cs: seq<Candidate>, time: string, i: nat)
    requires Valid(s)
    requires |s.entries| <= i < |Labels(OfferAll(s, cs, time).entries)|
    ensures var ls := Labels(OfferAll(s, cs, time).entries);
            ls[i] in CandidateLabels(cs) && ls[i] !in Labels(s.entries)
  {
    var ls := Labels(OfferAll(s, cs, time).entries);
    OfferAllLabelsPrefix(s, cs, time);
    assert ls[i] !in Labels(s.entries) by {
      assert forall k | 0 <= k < |s.entries| :: Labels(s.entries)[k] == ls[k] != ls[i];
    }
    FirstOccurrencesMembers(Labels(s.entries) + CandidateLabels(cs), ls[i]);
  }

  /** `OfferAllNewOrder` for one pair of new positions `i` and `j`. */
  lemma OfferAllNewPair(s: State, cs: seq<Candidate>, time: string, i: nat, j: nat)
    requires Valid(s)
    requires var ls := Labels(OfferAll(s, cs, time).entries);
             |s.entries| <= i < |ls| && |s.entries| <= j < |ls|
    ensures var ls := Labels(OfferAll(s, cs, time).entries);
            && ls[i] in CandidateLabels(cs) && ls[i] !in Labels(s.entries)
            && ls[j] in CandidateLabels(cs)
            && (FirstIndex(CandidateLabels(cs), ls[i]) < FirstIndex(CandidateLabels(cs), ls[j]) ==> i < j)
  {
    var old_, offered := Labels(s.entries), CandidateLabels(cs);
    var ls := Labels(OfferAll(s, cs, time).entries);
    OfferAllNewLabel(s, cs, time, i);
    OfferAllNewLabel(s, cs, time, j);
    OfferAllLabelsPrefix(s, cs, time);
    if FirstIndex(offered, ls[i]) < FirstIndex(offered, ls[j]) {
      FirstIndexShift(old_, offered, ls[i]);
      FirstIndexShift(old_, offered, ls[j]);
      FirstOccurrencesPrecede(old_ + offered, i, j);
    }
  }

  /** The first candidate in `cs` carrying `name`, if any. */
  function FirstWith(cs: seq<Candidate>, name: Label): (r: Option<Candidate>)
    ensures r.Some? <==> name in CandidateLabels(cs)
    ensures r.Some? ==> r.value.name == name && r.value == cs[FirstIndex(CandidateLabels(cs), name)]
  {
    if cs == [] then None
    else if cs[0].name == name then Some(cs[0])
    else
      assert CandidateLabels(cs) == [cs[0].name] + CandidateLabels(cs[1..]);
      FirstWith(cs[1..], name)
  }

  lemma {:induction false} FirstWithSnoc(cs: seq<Candidate>, c: Candidate, name: Label)
    ensures FirstWith(cs + [c], name)
         == if FirstWith(cs, name).Some? then FirstWith(cs, name)
            else if c.name == name then Some(c) else None
  {
    if cs != [] {
      assert (cs + [c])[1..] == cs[1..] + [c];
      FirstWithSnoc(cs[1..], c, name);
    }
  }

  /** First sighting wins: after any run of offers, a label already in the
      catalogue keeps its record, and a new label holds the record of the
      first candidate that carried it. */
  lemma {:induction false} OfferAllFirstWins(s: State, cs: seq<Candidate>, time: string, name: Label)
    ensures Lookup(OfferAll(s, cs, time).entries, name)
         == if name in Labels(s.entries) then Lookup(s.entries, name)
            else match FirstWith(cs, name)
                 case None => None
                 case Some(c) => Some(NewRecord(c, time))
    decreases |cs|
  {
    if cs != [] {
      var init, c := cs[..|cs| - 1], cs[|cs| - 1];
      assert cs == init + [c];
      OfferAllFirstWins(s, init, time, name);
      FirstWithSnoc(init, c, name);
    }
  }

  /** A label absent from the catalogue whose first carrier among the
      offers is the candidate at index `k` gets that candidate's record. */
  lemma OfferAllFirstCarrier(s: State, cs: seq<Candidate>, time: string, k: nat)
    requires k < |cs|
    requires cs[k].name !in Labels(s.entries)
    requires forall i | 0 <= i < k :: cs[i].name != cs[k].name
    ensures Lookup(OfferAll(s, cs, time).entries, cs[k].name) == Some(NewRecord(cs[k], time))
  {
    var names := CandidateLabels(cs);
    assert cs[k].name !in names[..k];
    FirstIndexUnique(names, cs[k].name, k);
    OfferAllFirstWins(s, cs, time, cs[k].name);
  }

  /** Offers of labels that are all present already leave the catalogue and
      the narrations exactly as they were. */
  lemma {:induction false} OfferAllPresent(s: State, cs: seq<Candidate>, time: string)
    requires forall i | 0 <= i < |cs| :: cs[i].name in Labels(s.entries)
    ensures OfferAll(s, cs, time) == s
    decreases |cs|
  {
    if cs != [] {
      OfferAllPresent(s, cs[..|cs| - 1], time);
    }
  }

  /** Example: "cat" at (10,10,50,50) with confidence 0.9 is accepted,
      and a later "cat" in the same sequence is ignored. */
  lemma CatExample(time: string)
    ensures var s := OfferAll(Empty, [Candidate("cat", Box(10, 10, 50, 50), 0.9),
                                      Candidate("cat", Box(12, 12, 48, 48), 0.95)], time);
            && s.entries == [Entry("cat", Record(0.9, time, Box(10, 10, 50, 50), 40, 40, 1600,
                                                 "detected_objects/cat.jpg"))]
            && |s.narrations| == 1
  {
    var c1 := Candidate("cat", Box(10, 10, 50, 50), 0.9);
    var c2 := Candidate("cat", Box(12, 12, 48, 48), 0.95);
    assert [c1, c2][..1] == [c1];
    var s1 := OfferAll(Empty, [c1], time);
    FirstCatOffer(time);
    assert Labels(s1.entries) == ["cat"];
    assert OfferAll(Empty, [c1, c2], time) == Offer(s1, c2, time);
  }

  /** The first offer of the example: a new entry with the record's
      sizes and image path worked out. */
  lemma FirstCatOffer(time: string)
    ensures var s := OfferAll(Empty, [Candidate("cat", Box(10, 10, 50, 50), 0.9)], time);
            && s.entries == [Entry("cat", Record(0.9, time, Box(10, 10, 50, 50), 40, 40, 1600,
                                                 "detected_objects/cat.jpg"))]
            && |s.narrations| == 1
  {
    var c1 := Candidate("cat", Box(10, 10, 50, 50), 0.9);
    assert [c1][..0] == [];
    assert ImagePath("cat") == "detected_objects/cat.jpg";
    assert OfferAll(Empty, [c1], time) == Offer(Empty, c1, time);
  }
}
