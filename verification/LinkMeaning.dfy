/** The discovery text, character by character (section 2 of RFC 6690). */
module LinkMeaning {
  import opened Basics
  import opened WellKnownCore

  /** How long the link of a resource is. */
  function Length(r: Resource): nat {
    |r.url| + 3 + if r.attributes == "" then 0 else 1 + |r.attributes|
  }

  /** Where the link of resource i starts: behind the links before it, each followed by one comma. */
  function StartOf(rs: seq<Resource>, i: nat): nat
    requires i <= |rs|
  {
    if i == 0 then 0 else StartOf(rs, i - 1) + Length(rs[i - 1]) + 1
  }

  lemma {:induction false} LinksLength(rs: seq<Resource>, i: nat)
    requires i <= |rs|
    ensures |Links(rs[..i])| == if i == 0 then 0 else StartOf(rs, i) - 1
    decreases i
  {
    if i > 0 {
      LinksLength(rs, i - 1);
      LinksStep(rs, i - 1);
    }
  }

  /** At a position of a text: the path in angle brackets and behind a slash, a semicolon and the
      attributes if there are any. */
  predicate LinkHere(text: string, at: nat, r: Resource) {
    var n := |r.url|;
    && at + Length(r) <= |text|
    && text[at] == '<' && text[at + 1] == '/' && text[at + 2..at + 2 + n] == r.url && text[at + 2 + n] == '>'
    && (r.attributes != "" ==>
         text[at + 3 + n] == ';' && text[at + 4 + n..at + 4 + n + |r.attributes|] == r.attributes)
  }

  /** The text of all resources holds the links one behind the other, with a comma between two of them,
      and nothing else. */
  lemma LinkAt(rs: seq<Resource>, i: nat)
    requires i < |rs|
    ensures var text, at := Links(rs), StartOf(rs, i);
      && LinkHere(text, at, rs[i])
      && (i > 0 ==> text[at - 1] == ',')
      && (i == |rs| - 1 ==> |text| == at + Length(rs[i]))
  {
    hide LinkHere, Link, Links, Length;
    LinksLength(rs, i);
    LinksLength(rs, i + 1);
    LinksStep(rs, i);
    LinksPrefix(rs, i + 1);
    var front := Links(rs[..i]);
    NoLinks(rs);
    var before := front + (if i == 0 then "" else ",");
    var upTo := Links(rs[..i + 1]);
    LinkLength(rs[i]);
    assert front == "" <==> i == 0 by { if i > 0 { LongEnough(rs, i); } }
    assert upTo == before + Link(rs[i]);
    LinkCharacters(before, rs[i]);
    Longer(upTo, Links(rs), |before|, rs[i]);
    assert i > 0 ==> Links(rs)[|before| - 1] == upTo[|before| - 1] == before[|before| - 1];
    if i == |rs| - 1 { assert rs[..i + 1] == rs; }
  }

  lemma NoLinks(rs: seq<Resource>)
    ensures Links(rs[..0]) == ""
  {
  }

  lemma LinkLength(r: Resource)
    ensures |Link(r)| == Length(r) >= 3
  {
  }

  lemma LongEnough(rs: seq<Resource>, i: nat)
    requires 0 < i <= |rs|
    ensures StartOf(rs, i) > 1
  {
  }

  lemma LinkCharacters(before: string, r: Resource)
    ensures LinkHere(before + Link(r), |before|, r)
  {
  }

  lemma Longer(part: string, text: string, at: nat, r: Resource)
    requires part <= text && LinkHere(part, at, r)
    ensures LinkHere(text, at, r)
  {
    var n := |r.url|;
    assert text[at + 2..at + 2 + n] == part[at + 2..at + 2 + n];
    assert r.attributes != "" ==>
      text[at + 4 + n..at + 4 + n + |r.attributes|] == part[at + 4 + n..at + 4 + n + |r.attributes|];
  }

  /** A request for a block gets the characters from its offset on, at most so many. */
  lemma SliceMeaning(text: string, offset: nat, size: nat, k: nat)
    ensures var s := Slice(text, offset, size);
      && |s| == (if offset >= |text| then 0 else if |text| - offset < size then |text| - offset else size)
      && (k < |s| ==> s[k] == text[offset + k])
  {
  }
}
