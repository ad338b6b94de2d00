/** The discovery resource: one window of the link-format text (section 2 of RFC 6690) of all
    resources is written into a block buffer, without the text ever existing as a whole. */
module WellKnownCore {
  import opened Basics

  datatype Resource = Resource(url: string, attributes: string)    // no attributes: the empty string

  /** The link of one resource. */
  function Link(r: Resource): string {
    "</" + r.url + ">" + (if r.attributes == "" then "" else ";" + r.attributes)
  }

  /** The whole text: all links, separated by commas. */
  function Links(rs: seq<Resource>): string {
    if rs == [] then ""
    else
      var before := Links(rs[..|rs| - 1]);
      before + (if before == "" then "" else ",") + Link(rs[|rs| - 1])
  }

  /** The characters of a text from an offset on, at most so many. */
  function Slice(text: string, offset: nat, size: nat): (s: string)
    ensures |s| == if |text| <= offset then 0 else Min(size, |text| - offset)
  {
    if |text| <= offset then "" else text[offset..Min(|text|, offset + size)]
  }

  lemma LinksStep(rs: seq<Resource>, i: nat)
    requires i < |rs|
    ensures Links(rs[..i + 1]) == Links(rs[..i]) + (if Links(rs[..i]) == "" then "" else ",") + Link(rs[i])
  {
    assert rs[..i + 1][..i] == rs[..i];
  }

  lemma {:induction false} LinksPrefix(rs: seq<Resource>, i: nat)
    requires i <= |rs|
    ensures Links(rs[..i]) <= Links(rs)
    decreases |rs| - i
  {
    if i == |rs| {
      assert rs[..i] == rs;
    } else {
      LinksStep(rs, i);
      LinksPrefix(rs, i + 1);
    }
  }

  /** A slice that is full does not change when the text goes on. */
  lemma FullSlice(text: string, more: string, offset: nat, size: nat)
    requires text <= more && |text| >= offset + size
    ensures Slice(more, offset, size) == Slice(text, offset, size)
  {
    assert more[..|text|] == text;
  }

  lemma SliceOneMore(text: string, c: char, offset: nat, size: nat)
    ensures Slice(text + [c], offset, size) ==
      Slice(text, offset, size) + (if |text| >= offset && |Slice(text, offset, size)| < size then [c] else [])
  {
  }

  class Writer {
    const buffer: array<char>
    const size: nat              // preferred_size
    const offset: nat
    var strpos: nat              // position in the text
    var bufpos: nat              // characters written, or more if a string was cut off

    constructor (buffer: array<char>, size: nat, offset: nat)
      ensures this.buffer == buffer && this.size == size && this.offset == offset && strpos == 0 && bufpos == 0
    {
      this.buffer, this.size, this.offset, strpos, bufpos := buffer, size, offset, 0, 0;
    }

    ghost predicate Valid() {
      0 < size < buffer.Length
    }

    /** The buffer holds the slice of a text. */
    ghost predicate Holds(text: string)
      reads this, buffer
    {
      bufpos == |Slice(text, offset, size)| && bufpos < buffer.Length && buffer[..bufpos] == Slice(text, offset, size)
    }

    /** ADD_CHAR_IF_POSSIBLE. */
    method AddChar(ghost text: string, c: char)
      requires Valid() && Holds(text) && strpos == |text|
      modifies this`strpos, this`bufpos, buffer
      ensures Holds(text + [c]) && strpos == |text| + 1
    {
      SliceOneMore(text, c, offset, size);
      hide Slice;
      ghost var before := buffer[..bufpos];
      if strpos >= offset && bufpos < size {
        buffer[bufpos] := c;
        assert buffer[..bufpos + 1] == before + [c];
        bufpos := bufpos + 1;
      }
      strpos := strpos + 1;
    }

    /** snprintf with room for n characters and the terminator: the length of the whole string. */
    method Print(at: nat, n: nat, s: string) returns (length: nat)
      requires at + n < buffer.Length
      modifies buffer
      ensures length == |s|
      ensures buffer[..][..at + Min(n, |s|)] == old(buffer[..])[..at] + s[..Min(n, |s|)]
    {
      var count := Min(n, |s|);
      ghost var before := buffer[..];
      forall k | 0 <= k < count {
        buffer[at + k] := s[k];
      }
      assert buffer[..][..at + count] == before[..at] + s[..count];
      buffer[at + count] := '\0';
      length := |s|;
    }

    /** ADD_STRING_IF_POSSIBLE; whether it breaks out of the loop over the resources. The strict
        form stops when the string fills the buffer exactly, the other one only when it does not fit. */
    method AddString(ghost text: string, s: string, strict: bool) returns (stop: bool)
      requires Valid() && Holds(text) && strpos == |text| && (strict || s != "")
      modifies this`strpos, this`bufpos, buffer
      ensures stop <==> if strict then |text + s| >= offset + size else |text + s| > offset + size
      ensures stop ==> bufpos >= size && buffer[..size] == Slice(text + s, offset, size)
      ensures !stop ==> Holds(text + s) && strpos == |text + s|
    {
      stop := false;
      if strpos + |s| > offset {
        ghost var before := buffer[..];
        var skip := if offset > strpos then offset - strpos else 0;
        var length := Print(bufpos, size - bufpos, s[skip..]);
        AppendedSlice(text, s, offset, size, skip);
        bufpos := bufpos + length;
        stop := if strict then bufpos >= size else bufpos > size;
        if stop {
          return;
        }
      }
      strpos := strpos + |s|;
    }

    /** The characters in front of a resource's path. */
    method AddStart(ghost text: string)
      requires Valid() && Holds(text) && strpos == |text|
      modifies this`strpos, this`bufpos, buffer
      ensures var text' := text + (if text == "" then "" else ",") + "</"; Holds(text') && strpos == |text'|
    {
      hide Slice, Holds;
      ghost var t := text;
      if strpos > 0 {
        AddChar(t, ',');
        t := t + [','];
      }
      AddChar(t, '<');
      t := t + ['<'];
      AddChar(t, '/');
      assert t + ['/'] == text + (if text == "" then "" else ",") + "</";
    }

    /** One turn of the handler's loop. The text now ends in the resource's link; it stops exactly
        if the text goes beyond the window. */
    method AddLink(ghost text: string, r: Resource) returns (stop: bool)
      requires Valid() && Holds(text) && strpos == |text|
      modifies this`strpos, this`bufpos, buffer
      ensures var text' := text + (if text == "" then "" else ",") + Link(r);
        && (stop <==> |text'| > offset + size)
        && (stop ==> bufpos >= size && buffer[..size] == Slice(text', offset, size))
        && (!stop ==> Holds(text') && strpos == |text'|)
    {
      hide Slice, Holds;
      ghost var goal := text + (if text == "" then "" else ",") + Link(r);
      AddStart(text);
      ghost var t := text + (if text == "" then "" else ",") + "</";
      ghost var rest := if r.attributes == "" then "" else ";" + r.attributes;
      assert goal == t + r.url + ['>'] + rest;
      stop := AddString(t, r.url, true);
      if stop {
        FullSlice(t + r.url, goal, offset, size);
        return;
      }
      t := t + r.url;
      AddChar(t, '>');
      t := t + ['>'];
      if r.attributes != "" {
        AddChar(t, ';');
        assert t + [';'] + r.attributes == goal;
        stop := AddString(t + [';'], r.attributes, false);
        if stop {
          return;
        }
      } else {
        assert t == goal;
      }
      HoldsAtMost(goal);
      stop := bufpos > size && strpos - bufpos > offset;
    }

    lemma HoldsAtMost(text: string)
      requires Holds(text)
      ensures bufpos <= size
    {
    }

    /** well_known_core_get_handler, without a query. */
    method Get(resources: seq<Resource>) returns (newOffset: int)
      requires Valid() && strpos == bufpos == 0
      modifies this`strpos, this`bufpos, buffer
      ensures var slice := Slice(Links(resources), offset, size);
        && buffer[..|slice|] == slice && Min(bufpos, size) == |slice|
        && (bufpos == 0 ==> strpos == |Links(resources)|)
      ensures newOffset == if |Links(resources)| > offset + size then offset + size else -1
      ensures newOffset == -1 ==> bufpos <= size
    {
      ghost var full := Links(resources);
      var i := 0;
      while i < |resources|
        invariant i <= |resources| && Holds(Links(resources[..i])) && strpos == |Links(resources[..i])|
        invariant strpos <= offset + size
      {
        ghost var text := Links(resources[..i]);
        LinksStep(resources, i);
        LinksPrefix(resources, i + 1);
        var stop := AddLink(text, resources[i]);
        if stop {
          FullSlice(Links(resources[..i + 1]), full, offset, size);
          return offset + size;
        }
        i := i + 1;
      }
      assert resources[..i] == resources;
      newOffset := -1;
    }
  }

  lemma AppendedSlice(text: string, s: string, offset: nat, size: nat, skip: nat)
    requires |text| + |s| > offset && skip == if offset > |text| then offset - |text| else 0
    ensures var old' := Slice(text, offset, size);
      Slice(text + s, offset, size) == old' + s[skip..][..Min(size - |old'|, |s| - skip)]
  {
  }
}
