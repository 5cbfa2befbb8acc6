/** Copying the headers and the sections of a file to their places in the image. */
module ImageMapping {
  import opened Words
  import PeFormat

  /** `image` with `data` copied over it at `at`. */
  function Blit(image: Bytes, at: nat, data: Bytes): (r: Bytes)
    requires at + |data| <= |image|
    ensures |r| == |image|
    ensures forall k :: 0 <= k < |r| ==> r[k] == if at <= k < at + |data| then data[k - at] else image[k]
  {
    image[..at] + data + image[at + |data|..]
  }

  /** `Truncated`: a section's raw data is not in the file. `Undefined`: a copy would leave the image. */
  datatype MapOutcome = Mapped(image: Bytes) | Truncated | Undefined

  function MapSections(raw: Bytes, sections: seq<PeFormat.Section>, image: Bytes): (r: MapOutcome)
    ensures r.Mapped? ==> |r.image| == |image|
    decreases |sections|
  {
    if sections == [] then Mapped(image)
    else
      var s := sections[0];
      if s.rawSize == 0 then MapSections(raw, sections[1..], image)
      else if s.rawStart + s.rawSize > |raw| then Truncated
      else if s.address + s.rawSize > |image| then Undefined
      else MapSections(raw, sections[1..], Blit(image, s.address, raw[s.rawStart..s.rawStart + s.rawSize]))
  }

  predicate Covers(s: PeFormat.Section, k: nat) {
    s.address <= k < s.address + s.rawSize
  }

  function SectionSpan(s: PeFormat.Section): Span {
    Span(s.address, s.address + s.rawSize)
  }

  /** Every section that has raw data lies in the file and in the image. */
  ghost predicate SectionsFit(raw: Bytes, sections: seq<PeFormat.Section>, imageSize: nat) {
    forall i :: 0 <= i < |sections| && sections[i].rawSize != 0 ==>
      sections[i].rawStart + sections[i].rawSize <= |raw| && sections[i].address + sections[i].rawSize <= imageSize
  }

  /** No two sections overlap in the image. */
  ghost predicate SectionsDisjoint(sections: seq<PeFormat.Section>) {
    forall i, j :: 0 <= i < j < |sections| && sections[i].rawSize != 0 && sections[j].rawSize != 0 ==>
      SectionSpan(sections[i]).Apart(SectionSpan(sections[j]))
  }

  lemma {:induction false} MapsWhatFits(raw: Bytes, sections: seq<PeFormat.Section>, image: Bytes)
    requires SectionsFit(raw, sections, |image|)
    ensures MapSections(raw, sections, image).Mapped?
    decreases |sections|
  {
    if sections != [] {
      var s := sections[0];
      if s.rawSize == 0 {
        MapsWhatFits(raw, sections[1..], image);
      } else {
        MapsWhatFits(raw, sections[1..], Blit(image, s.address, raw[s.rawStart..s.rawStart + s.rawSize]));
      }
    }
  }

  lemma {:induction false} UncoveredByte(raw: Bytes, sections: seq<PeFormat.Section>, image: Bytes, k: nat)
    requires k < |image| && MapSections(raw, sections, image).Mapped?
    requires forall i :: 0 <= i < |sections| ==> !Covers(sections[i], k)
    ensures MapSections(raw, sections, image).image[k] == image[k]
    decreases |sections|
  {
    if sections != [] {
      var s := sections[0];
      if s.rawSize == 0 {
        UncoveredByte(raw, sections[1..], image, k);
      } else {
        UncoveredByte(raw, sections[1..], Blit(image, s.address, raw[s.rawStart..s.rawStart + s.rawSize]), k);
      }
    }
  }

  lemma NotCoveredAgain(sections: seq<PeFormat.Section>, k: nat)
    requires SectionsDisjoint(sections) && sections != [] && Covers(sections[0], k)
    ensures forall j :: 1 <= j < |sections| ==> !Covers(sections[j], k)
  {
    forall j | 1 <= j < |sections|
      ensures !Covers(sections[j], k)
    {
      assert sections[j].rawSize != 0 ==> SectionSpan(sections[0]).Apart(SectionSpan(sections[j]));
    }
  }

  lemma RestIsWellFormed(raw: Bytes, sections: seq<PeFormat.Section>, imageSize: nat)
    requires sections != [] && SectionsDisjoint(sections) && SectionsFit(raw, sections, imageSize)
    ensures SectionsDisjoint(sections[1..]) && SectionsFit(raw, sections[1..], imageSize)
    ensures forall j :: 0 <= j < |sections| - 1 ==> sections[1..][j] == sections[j + 1]
  {
  }

  /** Mapping copies the first section that has raw data and then maps the others. */
  lemma MapsFirst(raw: Bytes, sections: seq<PeFormat.Section>, image: Bytes) returns (first: Bytes)
    requires sections != [] && MapSections(raw, sections, image).Mapped?
    ensures |first| == |image| && MapSections(raw, sections, image) == MapSections(raw, sections[1..], first)
    ensures forall k: nat :: k < |image| && Covers(sections[0], k) ==>
              var at := sections[0].rawStart + k - sections[0].address;
              at < |raw| && first[k] == raw[at]
  {
    hide Blit;
    var s := sections[0];
    if s.rawSize == 0 {
      first := image;
    } else {
      var data := raw[s.rawStart..s.rawStart + s.rawSize];
      first := Blit(image, s.address, data);
      forall k: nat | k < |image| && Covers(s, k)
        ensures first[k] == raw[s.rawStart + k - s.address]
      {
        assert data[k - s.address] == raw[s.rawStart + k - s.address];
      }
    }
  }

  /** A byte of the image covered by a section comes from that section's raw data, whatever the order. */
  lemma {:induction false} CoveredByte(raw: Bytes, sections: seq<PeFormat.Section>, image: Bytes, i: nat, k: nat)
    requires k < |image| && i < |sections| && Covers(sections[i], k)
    requires SectionsDisjoint(sections) && SectionsFit(raw, sections, |image|)
    requires MapSections(raw, sections, image).Mapped?
    ensures MapSections(raw, sections, image).image[k] == raw[sections[i].rawStart + k - sections[i].address]
    decreases |sections|
  {
    hide MapSections, SectionsFit, SectionsDisjoint;
    var rest := sections[1..];
    RestIsWellFormed(raw, sections, |image|);
    var first := MapsFirst(raw, sections, image);
    if i == 0 {
      NotCoveredAgain(sections, k);
      UncoveredByte(raw, rest, first, k);
    } else {
      CoveredByte(raw, rest, first, i - 1, k);
    }
  }

  lemma {:induction false} OccursTwice(sections: seq<PeFormat.Section>, s: PeFormat.Section) returns (i: nat, j: nat)
    requires multiset(sections)[s] >= 2
    ensures i < j < |sections| && sections[i] == sections[j] == s
    decreases |sections|
  {
    var n := |sections| - 1;
    assert sections == sections[..n] + [sections[n]];
    if sections[n] == s {
      assert s in multiset(sections[..n]);
      i :| 0 <= i < n && sections[i] == s;
      j := n;
    } else {
      i, j := OccursTwice(sections[..n], s);
    }
  }

  lemma ReorderedDisjoint(sections: seq<PeFormat.Section>, reordered: seq<PeFormat.Section>)
    requires multiset(sections) == multiset(reordered) && SectionsDisjoint(sections)
    ensures SectionsDisjoint(reordered)
  {
    forall i, j | 0 <= i < j < |reordered| && reordered[i].rawSize != 0 && reordered[j].rawSize != 0
      ensures SectionSpan(reordered[i]).Apart(SectionSpan(reordered[j]))
    {
      if reordered[i] == reordered[j] {
        assert reordered == reordered[..j] + reordered[j..];
        assert reordered[i] in reordered[..j] && reordered[j] in reordered[j..];
        var a, b := OccursTwice(sections, reordered[i]);
      } else {
        assert reordered[i] in multiset(sections) && reordered[j] in multiset(sections);
        var a :| 0 <= a < |sections| && sections[a] == reordered[i];
        var b :| 0 <= b < |sections| && sections[b] == reordered[j];
        assert a < b || b < a;
      }
    }
  }

  /** Disjoint sections map to the same image in any order. */
  lemma OrderIsIrrelevant(raw: Bytes, sections: seq<PeFormat.Section>, reordered: seq<PeFormat.Section>, image: Bytes)
    requires multiset(sections) == multiset(reordered)
    requires SectionsDisjoint(sections) && SectionsFit(raw, sections, |image|)
    ensures MapSections(raw, sections, image) == MapSections(raw, reordered, image)
    ensures MapSections(raw, sections, image).Mapped?
  {
    hide MapSections;
    ReorderedDisjoint(sections, reordered);
    assert forall s :: s in reordered <==> s in sections by {
      assert forall s :: s in reordered <==> s in multiset(reordered);
      assert forall s :: s in sections <==> s in multiset(sections);
    }
    assert SectionsFit(raw, reordered, |image|) by {
      forall j | 0 <= j < |reordered| && reordered[j].rawSize != 0
        ensures reordered[j].rawStart + reordered[j].rawSize <= |raw|
             && reordered[j].address + reordered[j].rawSize <= |image|
      {
        assert reordered[j] in sections;
      }
    }
    MapsWhatFits(raw, sections, image);
    MapsWhatFits(raw, reordered, image);
    forall k: nat | k < |image|
      ensures MapSections(raw, sections, image).image[k] == MapSections(raw, reordered, image).image[k]
    {
      if i :| 0 <= i < |sections| && Covers(sections[i], k) {
        assert sections[i] in reordered;
        var j :| 0 <= j < |reordered| && reordered[j] == sections[i];
        CoveredByte(raw, sections, image, i, k);
        CoveredByte(raw, reordered, image, j, k);
      } else {
        assert forall j :: 0 <= j < |reordered| ==> reordered[j] in sections;
        UncoveredByte(raw, sections, image, k);
        UncoveredByte(raw, reordered, image, k);
      }
    }
  }
}
