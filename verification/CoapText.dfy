/** Multi-part string options: how Erbium splits a text into option values when it serializes,
    and how the parser joins repeated options again. */
module CoapText {
  import opened Basics

  /** The values that coap_serialize_array_option writes for a text of n bytes that starts at
      mem[0], as the loop computes them: after a split it steps over the separator and then once
      more, so the first byte of the next part is never compared; and it may look one byte past
      the terminator, which is why mem holds two bytes more than the text. */
  function Parts(mem: seq<byte>, n: nat, sep: byte, start: nat, j: nat): (parts: seq<seq<byte>>)
    requires n + 2 <= |mem| && start <= j
    decreases n + 2 - j
  {
    if j > n + 1 then []
    else if mem[j] == sep || j == n then [mem[start..j]] + Parts(mem, n, sep, j + 1, j + 2)
    else Parts(mem, n, sep, start, j + 1)
  }

  function Split(text: seq<byte>, sep: byte, beyond: (byte, byte)): seq<seq<byte>> {
    Parts(text + [beyond.0, beyond.1], |text|, sep, 0, 0)
  }

  /** coap_merge_multi_option. */
  function Merge(text: seq<byte>, part: seq<byte>, sep: byte): seq<byte> {
    if |text| > 0 then text + [sep] + part else part
  }

  function MergeAll(text: seq<byte>, parts: seq<seq<byte>>, sep: byte): seq<byte>
    decreases parts
  {
    if parts == [] then text else MergeAll(Merge(text, parts[0], sep), parts[1..], sep)
  }

  /** Parts with the separator between them. */
  function Joined(parts: seq<seq<byte>>, sep: byte): seq<byte> {
    if parts == [] then [] else if |parts| == 1 then parts[0] else parts[0] + [sep] + Joined(parts[1..], sep)
  }

  function DropEmpty(parts: seq<seq<byte>>): seq<seq<byte>> {
    if parts == [] || parts[0] != [] then parts else DropEmpty(parts[1..])
  }

  /** Merging joins the parts after the leading empty ones. */
  lemma {:induction false} MergeIsJoin(parts: seq<seq<byte>>, sep: byte)
    ensures MergeAll([], parts, sep) == Joined(DropEmpty(parts), sep)
    decreases parts
  {
    if parts != [] {
      if parts[0] == [] {
        MergeIsJoin(parts[1..], sep);
      } else {
        MergeOnto(parts[0], parts[1..], sep);
        assert [parts[0]] + parts[1..] == parts;
      }
    }
  }

  lemma {:induction false} MergeOnto(text: seq<byte>, parts: seq<seq<byte>>, sep: byte)
    requires text != []
    ensures MergeAll(text, parts, sep) == Joined([text] + parts, sep)
    decreases parts
  {
    if parts != [] {
      var next := text + [sep] + parts[0];
      MergeOnto(next, parts[1..], sep);
      var all, merged := [text] + parts, [next] + parts[1..];
      assert all[1..] == parts && merged[1..] == parts[1..];
      if |parts| > 1 {
        assert Joined(all, sep) == text + [sep] + (parts[0] + [sep] + Joined(parts[1..], sep));
        assert Joined(merged, sep) == next + [sep] + Joined(parts[1..], sep);
      }
    }
  }

  /** The texts that survive: empty, or not starting with the separator and ending in an even
      number of separators (usually none). */
  predicate Survives(text: seq<byte>, sep: byte) {
    text == [] || (text[0] != sep && TrailingRun(text, sep) % 2 == 0)
  }

  function TrailingRun(text: seq<byte>, sep: byte): (k: nat)
    ensures k <= |text|
    ensures forall i :: |text| - k <= i < |text| ==> text[i] == sep
    ensures k < |text| ==> text[|text| - k - 1] != sep
  {
    if text == [] || text[|text| - 1] != sep then 0 else 1 + TrailingRun(text[..|text| - 1], sep)
  }

  /** Splitting and merging gives a text back exactly when Survives says so. The byte behind the
      text is its terminator, never the separator; the byte after that can be anything. */
  lemma SplitMergeRoundTrip(text: seq<byte>, sep: byte, beyond: (byte, byte))
    requires beyond.0 != sep
    ensures MergeAll([], Split(text, sep, beyond), sep) == text <==> Survives(text, sep)
  {
    var mem, n := text + [beyond.0, beyond.1], |text|;
    assert mem[0..n] == text && mem[..n] == text;
    if text == [] {
      assert Parts(mem, 0, sep, 0, 0) == [mem[0..0]] + Parts(mem, 0, sep, 1, 2);
    } else if text[0] != sep {
      Rejoin(mem, n, sep, 0, 0, []);
      ScanEnd(text, mem, sep, 0);
    } else {
      // the leading separator makes an empty first part, which merging forgets
      assert Split(text, sep, beyond) == [[]] + Parts(mem, n, sep, 1, 2);
      assert MergeAll([], Split(text, sep, beyond), sep) == MergeAll([], Parts(mem, n, sep, 1, 2), sep);
      if n == 1 {
        var tail := Parts(mem, n, sep, 1, 2);
        Overshoot(mem, n, sep, 1);
        assert [mem[n]][1..] == [] && MergeAll([beyond.0], [], sep) == [beyond.0];
        assert tail == [[beyond.0]] || tail == [];
      } else {
        Rejoin(mem, n, sep, 1, 2, []);
        assert (mem[1..n] + [mem[n]])[n - 1] == beyond.0;
        assert !StopsAtEnd(mem, n, sep, 2) ==> text[n - 1] == sep by { LastSkipped(mem, n, sep, 2); }
      }
    }
  }

  /** Does the scan from j stop exactly at the end of the text, rather than jump over it? */
  predicate StopsAtEnd(mem: seq<byte>, n: nat, sep: byte, j: nat)
    requires n + 2 <= |mem|
    decreases n + 2 - j
  {
    if j >= n then j == n
    else StopsAtEnd(mem, n, sep, if mem[j] == sep then j + 2 else j + 1)
  }

  lemma {:induction false} LastSkipped(mem: seq<byte>, n: nat, sep: byte, j: nat)
    requires n + 2 <= |mem| && j <= n
    ensures !StopsAtEnd(mem, n, sep, j) ==> mem[n - 1] == sep
    decreases n - j
  {
    if j < n && (mem[j] != sep || j + 2 <= n) {
      LastSkipped(mem, n, sep, if mem[j] == sep then j + 2 else j + 1);
    }
  }

  /** The scan stops at the end exactly when the trailing run of separators still ahead is even. */
  lemma {:induction false} ScanEnd(text: seq<byte>, mem: seq<byte>, sep: byte, j: nat)
    requires j <= |text| && |mem| == |text| + 2 && mem[..|text|] == text
    requires j <= |text| - TrailingRun(text, sep) || (j - |text| + TrailingRun(text, sep)) % 2 == 0
    ensures StopsAtEnd(mem, |text|, sep, j) <==> TrailingRun(text, sep) % 2 == 0
    decreases |text| - j
  {
    var n, run := |text|, TrailingRun(text, sep);
    if j < n {
      assert mem[j] == mem[..n][j];
      if mem[j] != sep {
        ScanEnd(text, mem, sep, j + 1);
      } else if j + 2 <= n {
        ScanEnd(text, mem, sep, j + 2);
      }
    }
  }

  /** How a joined text ends, depending on where the scan stopped. */
  function AtEnd(whole: seq<byte>, mem: seq<byte>, n: nat, sep: byte, stops: bool): seq<byte>
    requires n + 2 <= |mem|
    requires whole != [] || stops
  {
    if stops then whole
    else if mem[n + 1] == sep then whole + [mem[n]]
    else whole[..|whole| - 1]
  }

  /** From any point of the scan, merging the remaining parts onto acc appends the rest of the
      text; when the scan jumps over the end, the last separator is lost or the terminator added. */
  lemma {:induction false} Rejoin(mem: seq<byte>, n: nat, sep: byte, start: nat, j: nat, acc: seq<byte>)
    requires n + 2 <= |mem| && start <= j <= n
    requires acc == [] ==> start < n && (j == start ==> mem[j] != sep)
    ensures MergeAll(acc, Parts(mem, n, sep, start, j), sep)
         == AtEnd(Merge(acc, mem[start..n], sep), mem, n, sep, StopsAtEnd(mem, n, sep, j))
    decreases n - j
  {
    if j == n {
      assert Parts(mem, n, sep, start, n) == [mem[start..n]] + Parts(mem, n, sep, n + 1, n + 2);
      assert Parts(mem, n, sep, n + 1, n + 2) == [];
    } else if mem[j] != sep {
      Rejoin(mem, n, sep, start, j + 1, acc);
    } else {
      SplitStep(mem, n, sep, start, j, acc);
      if j + 2 <= n {
        Rejoin(mem, n, sep, j + 1, j + 2, Merge(acc, mem[start..j], sep));
      } else {
        var acc' := Merge(acc, mem[start..j], sep);
        RejoinOver(mem, n, sep, acc');
        assert Merge(acc, mem[start..n], sep) == acc' + [sep];
        assert (acc' + [sep])[..|acc'|] == acc';
      }
    }
  }

  lemma RejoinOver(mem: seq<byte>, n: nat, sep: byte, acc: seq<byte>)
    requires n + 2 <= |mem| && acc != []
    ensures MergeAll(acc, Parts(mem, n, sep, n, n + 1), sep) ==
      if mem[n + 1] == sep then acc + [sep] + [mem[n]] else acc
  {
    Overshoot(mem, n, sep, n);
    assert MergeAll(acc + [sep] + [mem[n]], [], sep) == acc + [sep] + [mem[n]];
  }

  lemma SplitStep(mem: seq<byte>, n: nat, sep: byte, start: nat, j: nat, acc: seq<byte>)
    requires n + 2 <= |mem| && start <= j < n && mem[j] == sep
    requires acc == [] ==> start < j
    ensures var acc' := Merge(acc, mem[start..j], sep);
      && MergeAll(acc, Parts(mem, n, sep, start, j), sep) == MergeAll(acc', Parts(mem, n, sep, j + 1, j + 2), sep)
      && Merge(acc, mem[start..n], sep) == acc' + [sep] + mem[j + 1..n]
  {
    assert Parts(mem, n, sep, start, j) == [mem[start..j]] + Parts(mem, n, sep, j + 1, j + 2);
    assert mem[start..n] == mem[start..j] + [sep] + mem[j + 1..n];
  }

  /** What the loop still emits when it has jumped over the terminator. */
  lemma Overshoot(mem: seq<byte>, n: nat, sep: byte, start: nat)
    requires n + 2 <= |mem| && start == n
    ensures Parts(mem, n, sep, start, n + 1) == if mem[n + 1] == sep then [[mem[n]]] else []
  {
    assert mem[n..n + 1] == [mem[n]];
    assert Parts(mem, n, sep, start, n + 2) == [] && Parts(mem, n, sep, n + 2, n + 3) == [];
  }
}
