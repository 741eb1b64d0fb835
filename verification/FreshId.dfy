/** The id of a new memory item (`blankItem` in apps/console/src/lib/memoryFirewall.ts). */
module FreshId {
  import Decimal
  import Selection

  datatype MemoryItem = MemoryItem(id: string, text: string, source: string, writer: string, authorized: bool)

  function Name(n: nat): string {
    "memory-" + Decimal.Render(n)
  }

  predicate Used(existing: seq<MemoryItem>, n: nat) {
    exists i :: 0 <= i < |existing| && existing[i].id == Name(n)
  }

  lemma NameInjective(m: nat, n: nat)
    requires Name(m) == Name(n)
    ensures m == n
  {
    assert Name(m)[7..] == Decimal.Render(m) && Name(n)[7..] == Decimal.Render(n);
    Decimal.RenderInjective(m, n);
  }

  /** A list has room for no more used numbers than it has items. */
  lemma {:induction false} UsedRunIsShort(existing: seq<MemoryItem>, lo: nat, hi: nat)
    requires lo <= hi && forall n :: lo <= n < hi ==> Used(existing, n)
    ensures hi - lo <= |existing|
    decreases hi
  {
    if lo < hi {
      var last := hi - 1;
      assert Used(existing, last);
      var i :| 0 <= i < |existing| && existing[i].id == Name(last);
      var rest := Selection.Without(existing, i);
      forall n | lo <= n < last
        ensures Used(rest, n)
      {
        assert Used(existing, n);
        var j :| 0 <= j < |existing| && existing[j].id == Name(n);
        if j == i {
          NameInjective(n, last);
        }
        assert rest[if j < i then j else j - 1] == existing[j];
      }
      UsedRunIsShort(rest, lo, last);
    }
  }

  /** The loop stops for every list, at the smallest unused number above the length, which is at most
      twice the length plus one. */
  method BlankItem(existing: seq<MemoryItem>) returns (item: MemoryItem, n: nat)
    ensures item == MemoryItem(Name(n), "", "user", "", true)
    ensures |item.id| > 7 && item.id[..7] == "memory-"
    ensures Decimal.Digits(item.id[7..]) && Decimal.Read(0, item.id[7..]) == n
    ensures item.id[7] != '0'
    ensures |existing| < n <= 2 * |existing| + 1
    ensures forall i :: 0 <= i < |existing| ==> existing[i].id != item.id
    ensures forall k :: |existing| < k < n ==> Used(existing, k)
  {
    n := |existing| + 1;
    while exists i :: 0 <= i < |existing| && existing[i].id == Name(n)
      invariant |existing| < n <= 2 * |existing| + 1
      invariant forall k :: |existing| < k < n ==> Used(existing, k)
      decreases 2 * |existing| + 1 - n
    {
      assert Used(existing, n);
      UsedRunIsShort(existing, |existing| + 1, n + 1);
      n := n + 1;
    }
    assert !Used(existing, n);
    item := MemoryItem(Name(n), "", "user", "", true);
    Decimal.ReadRender(n);
    assert item.id[7..] == Decimal.Render(n);
  }

  function Taken(length: nat, k: nat): (items: seq<MemoryItem>)
    ensures |items| == k
    ensures forall i :: 0 <= i < k ==> items[i].id == Name(length + 1 + i)
  {
    seq(k, i requires 0 <= i < k => MemoryItem(Name(length + 1 + i), "", "user", "", true))
  }

  /** The bound is reached for every length: the numbers right above the length can all be taken. */
  lemma BoundIsReached(length: nat, n: nat)
    requires length < n && !Used(Taken(length, length), n)
    requires forall k :: length < k < n ==> Used(Taken(length, length), k)
    ensures n == 2 * length + 1
  {
    var items := Taken(length, length);
    UsedRunIsShort(items, length + 1, n);
    forall k | length < k <= 2 * length
      ensures Used(items, k)
    {
      assert items[k - length - 1].id == Name(k);
    }
  }
}
