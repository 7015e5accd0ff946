/** The bookkeeping of an emission run, seen as a list of entries: the bytes one call wrote, and whether
    the call recorded a displacement. */
module CodeTables {
  import opened Bits

  datatype Entry = Entry(bytes: seq<Byte>, disp: bool)

  /** code: the bytes written. starts: info1, one position per call. disps: info2, the counter value of
      each call that wrote a displacement. count: the 16-bit call counter i1. */
  datatype Tables = Tables(code: seq<Byte>, starts: seq<nat>, disps: seq<Word16>, count: Word16)

  const EMPTY: Tables := Tables([], [], [], 0)

  function NextCount(count: Word16): Word16 {
    (count + 1) % TWO_16
  }

  /** One emitter call. */
  function Append(e: Entry, t: Tables): Tables {
    var n := NextCount(t.count);
    Tables(t.code + e.bytes, t.starts + [|t.code|], if e.disp then t.disps + [n] else t.disps, n)
  }

  /** All calls of a run, from empty tables. */
  function AppendAll(es: seq<Entry>): Tables {
    if es == [] then EMPTY else Append(es[|es| - 1], AppendAll(es[..|es| - 1]))
  }

  function Map<T>(f: T -> Entry, xs: seq<T>): (es: seq<Entry>)
    ensures |es| == |xs| && forall k :: 0 <= k < |xs| ==> es[k] == f(xs[k])
  {
    seq(|xs|, i requires 0 <= i < |xs| => f(xs[i]))
  }

  lemma MapConcat<T>(f: T -> Entry, xs: seq<T>, ys: seq<T>)
    ensures Map(f, xs + ys) == Map(f, xs) + Map(f, ys)
  {
  }

  lemma MapPrefix<T>(f: T -> Entry, xs: seq<T>, k: nat)
    requires k <= |xs|
    ensures Map(f, xs)[..k] == Map(f, xs[..k]) && Map(f, xs)[k..] == Map(f, xs[k..])
  {
  }

  /** The concatenation of everything written. */
  function Join(es: seq<Entry>): seq<Byte> {
    if es == [] then [] else es[0].bytes + Join(es[1..])
  }

  lemma {:induction false} JoinSnoc(es: seq<Entry>, e: Entry)
    ensures Join(es + [e]) == Join(es) + e.bytes
  {
    if es == [] {
      assert Join([e]) == e.bytes + Join([]);
      assert es + [e] == [e];
    } else {
      JoinSnoc(es[1..], e);
      assert (es + [e])[1..] == es[1..] + [e];
    }
  }

  lemma {:induction false} JoinConcat(a: seq<Entry>, b: seq<Entry>)
    ensures Join(a + b) == Join(a) + Join(b)
    decreases |b|
  {
    if b == [] {
      assert a + b == a;
    } else {
      var c, e := b[..|b| - 1], b[|b| - 1];
      JoinConcat(a, c);
      assert b == c + [e];
      ConcatAssociates(a, c, [e]);
      JoinSnoc(a + c, e);
      JoinSnoc(c, e);
      ConcatAssociates(Join(a), Join(c), e.bytes);
    }
  }

  // ----- The start table -----

  /** Where entry k ends: the next start, or the end of the code. */
  function EndOf(t: Tables, k: nat): nat
    requires k < |t.starts|
  {
    if k + 1 < |t.starts| then t.starts[k + 1] else |t.code|
  }

  /** One start per entry, each the sum of the lengths before it, cutting the code into the entries. */
  ghost predicate Partitions(t: Tables, es: seq<Entry>) {
    |t.starts| == |es| && t.code == Join(es) && forall k :: 0 <= k < |es| ==> CutsEntry(t, es, k)
  }

  lemma {:induction false} StartsPartition(es: seq<Entry>)
    ensures Partitions(AppendAll(es), es)
  {
    if es == [] {
    } else {
      var n := |es| - 1;
      StartsPartition(es[..n]);
      PartitionSnoc(AppendAll(es[..n]), es[..n], es[n]);
      assert es == es[..n] + [es[n]];
    }
  }

  /** From the start of entry k, the rest of the code is what entry k and its successors wrote. */
  lemma CodeFrom(es: seq<Entry>, k: nat)
    requires k < |es|
    ensures var t := AppendAll(es);
            |t.starts| == |es| && t.starts[k] <= |t.code| && t.code[t.starts[k]..] == Join(es[k..])
  {
    PartitionAt(es, k);
    JoinConcat(es[..k], es[k..]);
    assert es == es[..k] + es[k..];
  }

  lemma PartitionAt(es: seq<Entry>, k: nat)
    requires k < |es|
    ensures var t := AppendAll(es);
            && t.code == Join(es) && |t.starts| == |es| && t.starts[k] == |Join(es[..k])|
            && t.starts[k] <= EndOf(t, k) <= |t.code| && t.code[t.starts[k]..EndOf(t, k)] == es[k].bytes
  {
    StartsPartition(es);
    assert CutsEntry(AppendAll(es), es, k);
  }

  lemma PartitionSnoc(t: Tables, es: seq<Entry>, e: Entry)
    requires Partitions(t, es)
    ensures Partitions(Append(e, t), es + [e])
  {
    JoinSnoc(es, e);
    forall k | 0 <= k <= |es| ensures CutsEntry(Append(e, t), es + [e], k) {
      if k < |es| {
        EarlierCut(t, es, e, k);
      } else {
        assert (es + [e])[..k] == es;
      }
    }
    var t', es' := Append(e, t), es + [e];
    assert forall k :: 0 <= k < |es'| ==> CutsEntry(t', es', k);
  }

  /** Entry k starts after the entries before it and ends with its own bytes. */
  ghost predicate CutsEntry(t: Tables, es: seq<Entry>, k: nat)
    requires k < |t.starts| == |es|
  {
    && t.starts[k] == |Join(es[..k])|
    && t.starts[k] <= EndOf(t, k) <= |t.code| && t.code[t.starts[k]..EndOf(t, k)] == es[k].bytes
  }

  lemma EarlierCut(t: Tables, es: seq<Entry>, e: Entry, k: nat)
    requires Partitions(t, es) && k < |es|
    ensures CutsEntry(Append(e, t), es + [e], k)
  {
    var t' := Append(e, t);
    assert CutsEntry(t, es, k);
    assert (es + [e])[..k] == es[..k] && EndOf(t', k) == EndOf(t, k);
    assert t'.code[t'.starts[k]..EndOf(t', k)] == t.code[t.starts[k]..EndOf(t, k)];
  }

  lemma {:induction false} StartsAreSorted(es: seq<Entry>, i: nat, j: nat)
    requires i <= j < |es|
    ensures |AppendAll(es).starts| == |es| && AppendAll(es).starts[i] <= AppendAll(es).starts[j]
    decreases j - i
  {
    StartsPartition(es);
    assert CutsEntry(AppendAll(es), es, i);
    if i < j {
      StartsAreSorted(es, i + 1, j);
    }
  }

  /** Later calls never change what earlier calls wrote. */
  lemma {:induction false} EarlierUnchanged(es: seq<Entry>, more: seq<Entry>)
    ensures var t, t' := AppendAll(es), AppendAll(es + more);
            t.code <= t'.code && t.starts <= t'.starts && t.disps <= t'.disps
    decreases |more|
  {
    if more == [] {
      assert es + more == es;
    } else {
      var n := |more| - 1;
      EarlierUnchanged(es, more[..n]);
      var all := es + more;
      assert all[..|all| - 1] == es + more[..n];
    }
  }

  // ----- The displacement table -----

  /** Indices of the entries that record a displacement, in order. */
  function DispIndices(es: seq<Entry>): seq<nat> {
    if es == [] then []
    else
      var n := |es| - 1;
      DispIndices(es[..n]) + if es[n].disp then [n] else []
  }

  predicate Increasing(s: seq<int>) {
    forall i, j :: 0 <= i < j < |s| ==> s[i] < s[j]
  }

  lemma {:induction false} DispIndicesMeaning(es: seq<Entry>)
    ensures Increasing(DispIndices(es))
    ensures forall k: nat :: k in DispIndices(es) <==> k < |es| && es[k].disp
  {
    if es == [] {
    } else {
      var n := |es| - 1;
      var before := es[..n];
      DispIndicesMeaning(before);
      var d, d' := DispIndices(before), DispIndices(es);
      assert forall i :: 0 <= i < |d| ==> d[i] in d;
      assert forall k: nat :: k < n ==> before[k] == es[k];
      assert forall k: nat :: k in d' <==> k in d || (es[n].disp && k == n);
    }
  }

  /** The counter is the number of calls modulo 2^16, and the table lists its values at the calls that
      record a displacement, in order. */
  lemma {:induction false} DispTable(es: seq<Entry>)
    ensures var t := AppendAll(es);
            && t.count == |es| % TWO_16
            && |t.disps| == |DispIndices(es)|
            && forall j :: 0 <= j < |t.disps| ==> t.disps[j] == (DispIndices(es)[j] + 1) % TWO_16
  {
    if es == [] {
    } else {
      var n := |es| - 1;
      DispTable(es[..n]);
      assert NextCount(n % TWO_16) == (n + 1) % TWO_16;
      DispTableSnoc(AppendAll(es[..n]), DispIndices(es[..n]), n, es[n]);
    }
  }

  lemma DispTableSnoc(t: Tables, d: seq<nat>, n: nat, e: Entry)
    requires |t.disps| == |d| && forall j :: 0 <= j < |d| ==> t.disps[j] == (d[j] + 1) % TWO_16
    requires NextCount(t.count) == (n + 1) % TWO_16
    ensures var d', t' := d + if e.disp then [n] else [], Append(e, t);
            |t'.disps| == |d'| && forall j :: 0 <= j < |d'| ==> t'.disps[j] == (d'[j] + 1) % TWO_16
  {
  }

  /** The table names the right calls exactly when no displacement is recorded at call 2^16 or later,
      counting from 1. */
  lemma DispsExact(es: seq<Entry>)
    ensures var disps, d := AppendAll(es).disps, DispIndices(es);
            Shifted(disps, d) <==> (forall k :: 0 <= k < |es| && es[k].disp ==> k + 1 < TWO_16)
  {
    DispIndicesMeaning(es);
    DispTable(es);
    var disps, d := AppendAll(es).disps, DispIndices(es);
    forall j | 0 <= j < |d| ensures disps[j] == d[j] + 1 <==> d[j] + 1 < TWO_16 {
      ModIdentity(d[j] + 1);
    }
    if Shifted(disps, d) {
      forall k | 0 <= k < |es| && es[k].disp ensures k + 1 < TWO_16 {
        assert k in d;
      }
    }
    if forall k :: 0 <= k < |es| && es[k].disp ==> k + 1 < TWO_16 {
      forall j | 0 <= j < |d| ensures disps[j] == d[j] + 1 {
        assert d[j] in d;
      }
    }
  }

  lemma ModIdentity(x: nat)
    ensures x % TWO_16 == x <==> x < TWO_16
  {
  }

  /** In a run of fewer than 2^16 calls the table is strictly increasing and holds exactly the 1-based
      indices of the calls that recorded a displacement. */
  lemma {:induction false} DispsAreTheIndices(es: seq<Entry>)
    requires |es| < TWO_16
    ensures var disps := AppendAll(es).disps;
            Increasing(disps) && forall x: int :: x in disps <==> 1 <= x <= |es| && es[x - 1].disp
  {
    DispIndicesMeaning(es);
    ShortRun(es);
    ShiftedIndices(AppendAll(es).disps, DispIndices(es), es);
  }

  lemma {:induction false} IndexMember(es: seq<Entry>, x: int)
    requires |es| < TWO_16
    ensures x in AppendAll(es).disps <==> 1 <= x <= |es| && es[x - 1].disp
  {
    DispsAreTheIndices(es);
  }

  lemma ShortRun(es: seq<Entry>)
    requires |es| < TWO_16
    ensures Shifted(AppendAll(es).disps, DispIndices(es))
  {
    DispsExact(es);
  }

  /** disps is d with every element one larger. */
  predicate Shifted(disps: seq<Word16>, d: seq<nat>) {
    |disps| == |d| && forall j :: 0 <= j < |d| ==> disps[j] == d[j] + 1
  }

  lemma ShiftedIndices(disps: seq<Word16>, d: seq<nat>, es: seq<Entry>)
    requires Shifted(disps, d) && Increasing(d)
    requires forall k: nat :: k in d <==> k < |es| && es[k].disp
    ensures Increasing(disps) && forall x: int :: x in disps <==> 1 <= x <= |es| && es[x - 1].disp
  {
    forall x: int ensures x in disps <==> 1 <= x <= |es| && es[x - 1].disp {
      ShiftedMember(disps, d, es, x);
    }
  }

  lemma ShiftedMember(disps: seq<Word16>, d: seq<nat>, es: seq<Entry>, x: int)
    requires Shifted(disps, d)
    requires forall k: nat :: k in d <==> k < |es| && es[k].disp
    ensures x in disps <==> 1 <= x <= |es| && es[x - 1].disp
  {
    if 1 <= x <= |es| && es[x - 1].disp {
      assert x - 1 in d;
      var j :| 0 <= j < |d| && d[j] == x - 1;
      assert disps[j] == x;
    }
    if x in disps {
      var j :| 0 <= j < |disps| && disps[j] == x;
      assert d[j] == x - 1 && d[j] in d;
    }
  }
}
