/** The greedy fragmenter of LIST, STATS, CONNECTIONS and CHANNELS. */
module Packing {
  import opened Bytes

  function Weight<T>(w: T -> nat, items: seq<T>): nat {
    if items == [] then 0 else w(items[0]) + Weight(w, items[1..])
  }

  lemma {:induction false} WeightAppend<T>(w: T -> nat, a: seq<T>, b: seq<T>)
    ensures Weight(w, a + b) == Weight(w, a) + Weight(w, b)
  {
    if a == [] {
      assert a + b == b;
    } else {
      WeightAppend(w, a[1..], b);
      assert (a + b)[1..] == a[1..] + b;
    }
  }

  // The fragments the loop still produces with `items` to visit, `cur` the fragment
  // being filled and `size` what that fragment measures so far.
  function Pack<T>(w: T -> nat, cap: nat, items: seq<T>, cur: seq<T>, size: nat): seq<seq<T>> {
    if items == [] then
      if cur == [] then [] else [cur]
    else if size + w(items[0]) > cap then
      [cur] + Pack(w, cap, items[1..], [items[0]], w(items[0]))
    else
      Pack(w, cap, items[1..], cur + [items[0]], size + w(items[0]))
  }

  function Fragments<T>(w: T -> nat, cap: nat, items: seq<T>): seq<seq<T>> {
    Pack(w, cap, items, [], 0)
  }

  // Nothing is lost, repeated or reordered, whatever the items weigh.
  lemma {:induction false} PackConserves<T>(w: T -> nat, cap: nat, items: seq<T>, cur: seq<T>, size: nat)
    ensures Flatten(Pack(w, cap, items, cur, size)) == cur + items
    decreases |items|
  {
    if items == [] {
    } else if size + w(items[0]) > cap {
      PackConserves(w, cap, items[1..], [items[0]], w(items[0]));
      var p := Pack(w, cap, items[1..], [items[0]], w(items[0]));
      assert ([cur] + p)[1..] == p;
      assert [items[0]] + items[1..] == items;
    } else {
      PackConserves(w, cap, items[1..], cur + [items[0]], size + w(items[0]));
      Assoc(cur, [items[0]], items[1..]);
      assert [items[0]] + items[1..] == items;
    }
  }

  lemma FragmentsConserve<T>(w: T -> nat, cap: nat, items: seq<T>)
    ensures Flatten(Fragments(w, cap, items)) == items
  {
    PackConserves(w, cap, items, [], 0);
  }

  lemma OneFragment<T>(fragments: seq<seq<T>>, items: seq<T>)
    requires |fragments| == 1 && Flatten(fragments) == items
    ensures fragments == [items]
  {
    assert fragments[1..] == [];
    assert Flatten(fragments[1..]) == [];
    assert items == fragments[0] + [] == fragments[0];
    assert fragments == [fragments[0]];
  }

  ghost predicate Fits<T>(w: T -> nat, cap: nat, fragments: seq<seq<T>>) {
    forall f :: f in fragments ==> f != [] && Weight(w, f) <= cap
  }

  lemma {:induction false} PackFits<T>(w: T -> nat, cap: nat, items: seq<T>, cur: seq<T>, size: nat)
    requires forall x :: x in items ==> w(x) <= cap
    requires size == Weight(w, cur) <= cap
    requires cur == [] ==> size == 0
    ensures Fits(w, cap, Pack(w, cap, items, cur, size))
    decreases |items|
  {
    if items == [] {
    } else {
      var x := items[0];
      if size + w(x) > cap {
        assert Weight(w, [x]) == w(x);
        PackFits(w, cap, items[1..], [x], w(x));
      } else {
        WeightAppend(w, cur, [x]);
        PackFits(w, cap, items[1..], cur + [x], size + w(x));
      }
    }
  }

  lemma {:induction false} MemberWeight<T>(w: T -> nat, items: seq<T>, x: T)
    requires x in items
    ensures w(x) <= Weight(w, items)
  {
    if x != items[0] {
      MemberWeight(w, items[1..], x);
    }
  }

  lemma {:induction false} MemberOfFlatten<T>(ss: seq<seq<T>>, x: T)
    ensures x in Flatten(ss) <==> exists s :: s in ss && x in s
  {
    if ss == [] {
    } else {
      MemberOfFlatten(ss[1..], x);
      assert ss == [ss[0]] + ss[1..];
    }
  }

  // Every fragment is non-empty and within the limit exactly when every item alone is.
  lemma FragmentsFitIff<T>(w: T -> nat, cap: nat, items: seq<T>)
    ensures Fits(w, cap, Fragments(w, cap, items)) <==> forall x :: x in items ==> w(x) <= cap
  {
    if forall x :: x in items ==> w(x) <= cap {
      PackFits(w, cap, items, [], 0);
    }
    var fs := Fragments(w, cap, items);
    if Fits(w, cap, fs) {
      FragmentsConserve(w, cap, items);
      forall x | x in items ensures w(x) <= cap {
        MemberOfFlatten(fs, x);
        var f :| f in fs && x in f;
        MemberWeight(w, f, x);
      }
    }
  }

  // How many more fragments the loop opens.
  function Opened<T>(w: T -> nat, cap: nat, items: seq<T>, size: nat): nat {
    if items == [] then 0
    else if size + w(items[0]) > cap then 1 + Opened(w, cap, items[1..], w(items[0]))
    else Opened(w, cap, items[1..], size + w(items[0]))
  }

  lemma {:induction false} PackCount<T>(w: T -> nat, cap: nat, items: seq<T>, cur: seq<T>, size: nat)
    requires cur != [] || items != []
    requires cur == [] ==> size == 0 && w(items[0]) <= cap
    ensures |Pack(w, cap, items, cur, size)| == 1 + Opened(w, cap, items, size)
    decreases |items|
  {
    if items == [] {
    } else if size + w(items[0]) > cap {
      PackCount(w, cap, items[1..], [items[0]], w(items[0]));
    } else {
      PackCount(w, cap, items[1..], cur + [items[0]], size + w(items[0]));
    }
  }

  // A fuller current fragment never helps, and costs at most one more fragment.
  lemma {:induction false} OpenedMonotone<T>(w: T -> nat, cap: nat, items: seq<T>, low: nat, high: nat)
    requires low <= high
    ensures Opened(w, cap, items, low) <= Opened(w, cap, items, high) <= Opened(w, cap, items, low) + 1
    decreases |items|
  {
    if items == [] {
    } else {
      var x := w(items[0]);
      if low + x <= cap {
        if high + x <= cap {
          OpenedMonotone(w, cap, items[1..], low + x, high + x);
        } else {
          OpenedMonotone(w, cap, items[1..], x, low + x);
        }
      }
    }
  }

  lemma {:induction false} OpenedSkips<T>(w: T -> nat, cap: nat, block: seq<T>, items: seq<T>, size: nat)
    requires size + Weight(w, block) <= cap
    ensures Opened(w, cap, block + items, size) == Opened(w, cap, items, size + Weight(w, block))
    decreases |block|
  {
    if block == [] {
      assert block + items == items;
    } else {
      assert (block + items)[1..] == block[1..] + items;
      OpenedSkips(w, cap, block[1..], items, size + w(block[0]));
    }
  }

  lemma {:induction false} OpenedAtMostBlocks<T>(w: T -> nat, cap: nat, blocks: seq<seq<T>>, size: nat)
    requires forall b :: b in blocks ==> Weight(w, b) <= cap
    ensures Opened(w, cap, Flatten(blocks), size) <= |blocks|
    decreases |blocks|
  {
    if blocks == [] {
    } else {
      var rest := Flatten(blocks[1..]);
      OpenedMonotone(w, cap, Flatten(blocks), 0, size);
      OpenedSkips(w, cap, blocks[0], rest, 0);
      OpenedAtMostBlocks(w, cap, blocks[1..], Weight(w, blocks[0]));
    }
  }

  // No order-preserving split of the items into fragments within the limit is shorter.
  lemma GreedyIsOptimal<T>(w: T -> nat, cap: nat, items: seq<T>, split: seq<seq<T>>)
    requires Flatten(split) == items
    requires forall b :: b in split ==> Weight(w, b) <= cap
    ensures |Fragments(w, cap, items)| <= |split|
  {
    if items == [] {
    } else {
      FirstBlockFits(w, cap, split);
      PackCount(w, cap, items, [], 0);
      OpenedByFirst(w, cap, split);
    }
  }

  lemma {:induction false} FirstBlockFits<T>(w: T -> nat, cap: nat, split: seq<seq<T>>)
    requires Flatten(split) != []
    requires forall b :: b in split ==> Weight(w, b) <= cap
    ensures w(Flatten(split)[0]) <= cap
  {
    if split[0] == [] {
      FirstBlockFits(w, cap, split[1..]);
    } else {
      assert split[0] in split;
    }
  }

  lemma OpenedByFirst<T>(w: T -> nat, cap: nat, split: seq<seq<T>>)
    requires split != []
    requires forall b :: b in split ==> Weight(w, b) <= cap
    ensures 1 + Opened(w, cap, Flatten(split), 0) <= |split|
  {
    var rest := Flatten(split[1..]);
    OpenedSkips(w, cap, split[0], rest, 0);
    OpenedAtMostBlocks(w, cap, split[1..], Weight(w, split[0]));
  }

  function CeilDiv(n: nat, k: nat): nat
    requires k > 0
  {
    (n + k - 1) / k
  }

  lemma CeilDivStep(n: nat, k: nat)
    requires k > 0
    ensures CeilDiv(n + k, k) == 1 + CeilDiv(n, k)
  {
    var m := n + k - 1;
    ModUnique(m + k, k, m / k + 1, m % k);
  }

  lemma CeilDivOne(n: nat, k: nat)
    requires 0 < n <= k
    ensures CeilDiv(n, k) == 1
  {
  }

  // With items of one weight c and room for k of them, fragments hold k items each.
  lemma {:induction false} UniformCount<T>(w: T -> nat, cap: nat, items: seq<T>, cur: seq<T>, c: nat, k: nat)
    requires c > 0 && k > 0
    requires k * c <= cap < (k + 1) * c
    requires forall x :: w(x) == c
    requires |cur| <= k
    ensures |Pack(w, cap, items, cur, |cur| * c)| == CeilDiv(|cur| + |items|, k)
    decreases |items|
  {
    if items == [] {
      if cur == [] {
        ModUnique(k - 1, k, 0, k - 1);
      } else {
        CeilDivOne(|cur|, k);
      }
    } else {
      var x := items[0];
      assert (|cur| + 1) * c == |cur| * c + c;
      if |cur| == k {
        UniformCount(w, cap, items[1..], [x], c, k);
        assert |[x]| * c == c;
        CeilDivStep(|items|, k);
      } else {
        MulMono(|cur| + 1, k, c);
        UniformCount(w, cap, items[1..], cur + [x], c, k);
      }
    }
  }

  // ... and the first of them holds the first k, if there are as many.
  lemma {:induction false} UniformFirst<T>(w: T -> nat, cap: nat, items: seq<T>, cur: seq<T>, c: nat, k: nat)
    requires c > 0 && k > 0
    requires k * c <= cap < (k + 1) * c
    requires forall x :: w(x) == c
    requires |cur| <= k <= |cur| + |items|
    ensures var p := Pack(w, cap, items, cur, |cur| * c);
            p != [] && p[0] == cur + items[..k - |cur|]
    decreases |items|
  {
    if |cur| == k {
      assert (|cur| + 1) * c == |cur| * c + c;
      assert cur + items[..0] == cur;
    } else {
      var x := items[0];
      assert (|cur| + 1) * c == |cur| * c + c;
      MulMono(|cur| + 1, k, c);
      UniformFirst(w, cap, items[1..], cur + [x], c, k);
      assert cur + [x] + items[1..][..k - |cur| - 1] == cur + items[..k - |cur|];
    }
  }

  lemma UniformFragments<T>(w: T -> nat, cap: nat, items: seq<T>, c: nat, k: nat)
    requires c > 0 && k > 0
    requires k * c <= cap < (k + 1) * c
    requires forall x :: w(x) == c
    ensures |Fragments(w, cap, items)| == CeilDiv(|items|, k)
  {
    UniformCount(w, cap, items, [], c, k);
  }
}
