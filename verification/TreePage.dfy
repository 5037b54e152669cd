/**
  The tree page: a header and a fixed-capacity array of key/value slots, changed in place.
  A page is read as a leaf or as an internal page according to its type field.
 */
module TreePages {
  import opened TreeShape

  class TreePage {
    const isLeaf: bool
    const pageId: PageId
    const maxSize: nat
    const slots: array<Pair>
    var size: nat
    var parent: PageId
    var next: PageId

    ghost predicate Valid()
      reads this
    {
      size <= maxSize == slots.Length
    }

    /** The page as a value: the live part of the array and the links. */
    function View(): Node
      reads this, slots
      requires Valid()
    {
      Node(isLeaf, parent, if isLeaf then next else INVALID_PAGE_ID, slots[..size])
    }

    /** A frame holding the given page. */
    constructor (pageId: PageId, n: Node, maxSize: nat)
      requires |n.items| <= maxSize
      ensures Valid() && fresh(slots) && this.pageId == pageId && this.maxSize == maxSize
      ensures View() == n.(next := if n.isLeaf then n.next else INVALID_PAGE_ID)
    {
      this.isLeaf, this.pageId, this.parent, this.maxSize := n.isLeaf, pageId, n.parent, maxSize;
      slots := new Pair[maxSize](i requires 0 <= i => if i < |n.items| then n.items[i] else Pair(0, 0));
      size, next := |n.items|, n.next;
    }

    // ---------------------------------------------------------------- slots

    /** Open a gap at position i by shifting the tail one slot to the right, last entry first. */
    method ShiftRight(i: nat)
      requires Valid() && i <= size < maxSize
      modifies slots
      ensures slots[..i] == old(slots[..i]) && slots[i + 1..size + 1] == old(slots[i..size])
    {
      var k := size;
      while k > i
        invariant i <= k <= size
        invariant slots[..k] == old(slots[..k])
        invariant slots[k + 1..size + 1] == old(slots[k..size])
      {
        slots[k] := slots[k - 1];
        k := k - 1;
      }
    }

    /** Close the gap at position i by shifting the tail one slot to the left. */
    method ShiftLeft(i: nat)
      requires Valid() && i < size
      modifies slots
      ensures slots[..size - 1] == old(RemoveAt(slots[..size], i))
    {
      ghost var was := slots[..size];
      var k := i;
      while k < size - 1
        invariant i <= k <= size - 1
        invariant slots[..i] == was[..i]
        invariant forall m :: i <= m < k ==> slots[m] == was[m + 1]
        invariant forall m :: k <= m < size ==> slots[m] == was[m]
      {
        slots[k] := slots[k + 1];
        k := k + 1;
      }
      forall m | 0 <= m < size - 1 ensures slots[..size - 1][m] == RemoveAt(was, i)[m] {
        if m < i { assert slots[m] == slots[..i][m] == was[..i][m]; }
      }
    }

    /** Open a gap at position i and fill it. */
    method PutAt(i: nat, x: Pair)
      requires Valid() && i <= size < maxSize
      modifies this`size, slots
      ensures Valid() && View() == old(View()).(items := InsertAt(old(View()).items, i, x))
    {
      ghost var items := slots[..size];
      ShiftRight(i);
      slots[i] := x;
      size := size + 1;
      assert slots[..size] == slots[..i] + [slots[i]] + slots[i + 1..size];
      assert slots[..i] == items[..i] && slots[i + 1..size] == items[i..];
    }

    // ---------------------------------------------------------------- leaf pages

    /** The first position whose key is not smaller, or the last position if there is none. */
    method KeyIndex(key: Key) returns (r: nat)
      requires Valid() && isLeaf && size >= 1 && Sorted(View().items)
      ensures r < size
      ensures r == if Rank(View().items, key) < size then Rank(View().items, key) else size - 1
    {
      var l: nat := 0;
      r := size - 1;
      while l < r
        invariant 0 <= l <= r < size
        invariant l == 0 || slots[l - 1].key < key
        invariant r == size - 1 || slots[r].key >= key
      {
        var mid := (l + r) / 2;
        if slots[mid].key >= key { r := mid; } else { l := mid + 1; }
      }
      RankIs(View().items, key, if slots[r].key >= key then r else size);
    }

    method LeafLookup(key: Key) returns (found: bool, value: int)
      requires Valid() && isLeaf && size >= 1 && Sorted(View().items)
      ensures found == Has(View().items, key)
      ensures found ==> value == View().items[Rank(View().items, key)].val
    {
      var r := KeyIndex(key);
      found := slots[r].key == key;
      value := slots[r].val;
      assert View().items[r] == slots[r];
    }

    method LeafInsert(key: Key, value: int) returns (n: nat)
      requires Valid() && isLeaf && size < maxSize && Sorted(View().items)
      modifies this`size, slots
      ensures Valid() && View() == old(View()).(items := InsertSorted(old(View()).items, key, value))
      ensures n == size
    {
      if size == 0 {
        slots[0] := Pair(key, value);
        size := 1;
        return size;
      }
      var r := KeyIndex(key);
      assert View().items[r] == slots[r];
      PutAt(if slots[r].key >= key then r else r + 1, Pair(key, value));
      n := size;
    }

    method LeafRemove(key: Key) returns (n: nat)
      requires Valid() && isLeaf && size >= 1 && Sorted(View().items)
      modifies this`size, slots
      ensures Valid() && View() == old(View()).(items := RemoveKey(old(View()).items, key))
      ensures n == size
    {
      var index := KeyIndex(key);
      assert View().items[index] == slots[index];
      if slots[index].key == key {
        ShiftLeft(index);
        size := size - 1;
      }
      n := size;
    }

    /** Append `n` entries of another page, from position `from` on. */
    method CopyNFrom(src: TreePage, from: nat, n: nat)
      requires Valid() && src.Valid() && src.slots != slots && from + n <= src.size && size + n <= maxSize
      modifies this`size, slots
      ensures Valid() && View() == old(View()).(items := old(View()).items + old(src.slots[from..from + n]))
    {
      var i := 0;
      while i < n
        invariant 0 <= i <= n && size == old(size)
        invariant slots[..size + i] == old(slots[..size]) + old(src.slots[from..from + i])
      {
        slots[i + size] := src.slots[from + i];
        i := i + 1;
      }
      size := size + n;
    }

    method LeafMoveHalfTo(recipient: TreePage)
      requires Valid() && recipient.Valid() && isLeaf && recipient.isLeaf && recipient != this && recipient.slots != slots
      requires recipient.size == 0 && recipient.maxSize >= size
      modifies this`size, this`next, recipient`size, recipient`next, recipient.slots
      ensures Valid() && recipient.Valid()
      ensures var n := old(View()); var half := (|n.items| + 1) / 2;
        View() == n.(items := n.items[..half], next := recipient.pageId) &&
        recipient.View() == old(recipient.View()).(items := n.items[half..], next := n.next)
    {
      var half := (size + 1) / 2;
      recipient.CopyNFrom(this, half, size - half);
      size := half;
      recipient.next := next;
      next := recipient.pageId;
    }

    method LeafMoveAllTo(recipient: TreePage)
      requires Valid() && recipient.Valid() && isLeaf && recipient.isLeaf && recipient != this && recipient.slots != slots
      requires recipient.size + size <= recipient.maxSize
      modifies this`size, recipient`size, recipient`next, recipient.slots
      ensures Valid() && recipient.Valid()
      ensures recipient.View() ==
        old(recipient.View()).(items := old(recipient.View()).items + old(View()).items, next := old(View()).next)
      ensures View() == old(View()).(items := [])
    {
      recipient.CopyNFrom(this, 0, size);
      recipient.next := next;
      size := 0;
    }

    /** The closing loop runs one step further than needed and reads the slot behind the last entry. */
    method LeafMoveFirstToEndOf(recipient: TreePage)
      requires Valid() && recipient.Valid() && isLeaf && recipient.isLeaf && recipient != this && recipient.slots != slots
      requires 1 <= size < maxSize && recipient.size < recipient.maxSize
      modifies this`size, slots, recipient`size, recipient.slots
      ensures Valid() && recipient.Valid()
      ensures recipient.View() == old(recipient.View()).(items := old(recipient.View()).items + [old(View()).items[0]])
      ensures View() == old(View()).(items := old(View()).items[1..])
    {
      recipient.slots[recipient.size] := slots[0];
      recipient.size := recipient.size + 1;
      var i := 0;
      while i < size
        invariant 0 <= i <= size && size == old(size)
        invariant slots[..i] == old(slots[1..i + 1])
        invariant forall k :: i <= k < maxSize ==> slots[k] == old(slots[k])
        invariant recipient.Valid() && recipient.size == old(recipient.size) + 1
        invariant recipient.slots[..recipient.size] == old(recipient.View()).items + [old(slots[0])]
      {
        slots[i] := slots[i + 1];
        i := i + 1;
      }
      size := size - 1;
      assert slots[..size] == old(slots[1..size]);
    }

    method LeafMoveLastToFrontOf(recipient: TreePage)
      requires Valid() && recipient.Valid() && isLeaf && recipient.isLeaf && recipient != this && recipient.slots != slots
      requires 1 <= size && recipient.size < recipient.maxSize
      modifies this`size, recipient`size, recipient.slots
      ensures Valid() && recipient.Valid()
      ensures var items := old(View()).items;
        recipient.View() == old(recipient.View()).(items := [items[|items| - 1]] + old(recipient.View()).items) &&
        View() == old(View()).(items := items[..|items| - 1])
    {
      recipient.PutAt(0, slots[size - 1]);
      size := size - 1;
      assert InsertAt(old(recipient.View()).items, 0, slots[size]) == [slots[size]] + old(recipient.View()).items;
    }

    // ---------------------------------------------------------------- internal pages

    /** The child whose range holds the key; the key in slot 0 is never looked at. */
    method InternalLookup(key: Key) returns (child: PageId)
      requires Valid() && !isLeaf && size >= 2
      requires forall a, b :: 1 <= a < b < size ==> slots[a].key < slots[b].key
      ensures exists i: nat :: RoutesTo(View().items, key, i) && child == View().items[i].val
    {
      if slots[1].key > key {
        assert RoutesTo(View().items, key, 0);
        return slots[0].val;
      }
      var l: nat := 1;
      var r: nat := size - 1;
      while l < r
        invariant 1 <= l <= r < size
        invariant forall a :: 1 <= a < l ==> slots[a].key < key
        invariant r == size - 1 || slots[r].key >= key
      {
        var mid := (l + r) / 2;
        if slots[mid].key >= key { r := mid; } else { l := mid + 1; }
      }
      if slots[r].key > key {
        assert RoutesTo(View().items, key, r - 1);
        child := slots[r - 1].val;
      } else {
        assert RoutesTo(View().items, key, r);
        child := slots[r].val;
      }
    }

    /** Insert behind the entry with value `oldValue`; entries are shifted while it is searched for. */
    method InsertNodeAfter(oldValue: PageId, key: Key, newValue: PageId, ghost at: nat) returns (n: nat)
      requires Valid() && !isLeaf && size < maxSize
      requires at < size && slots[at].val == oldValue && forall k :: at < k < size ==> slots[k].val != oldValue
      modifies this`size, slots
      ensures Valid() && View() == old(View()).(items := InsertAt(old(View()).items, at + 1, Pair(key, newValue)))
      ensures n == size
    {
      var i := size;
      while i > 0
        invariant at < i <= size && size == old(size)
        invariant forall k :: 0 <= k < i ==> slots[k] == old(slots[k])
        invariant forall k :: i < k <= size ==> slots[k] == old(slots[k - 1])
      {
        if slots[i - 1].val == oldValue {
          slots[i] := Pair(key, newValue);
          break;
        }
        slots[i] := slots[i - 1];
        i := i - 1;
      }
      assert i == at + 1;
      assert slots[..i] == old(slots[..i]) && slots[i + 1..size + 1] == old(slots[i..size]);
      size := size + 1;
      assert slots[..size] == slots[..i] + [slots[i]] + slots[i + 1..size];
      n := size;
    }

    /** The key of slot 0 keeps whatever the fresh page holds there. */
    method PopulateNewRoot(oldValue: PageId, key: Key, newValue: PageId) returns (ghost junk: Key)
      requires Valid() && !isLeaf && size == 0 && maxSize >= 2
      modifies this`size, slots
      ensures Valid() && View() == old(View()).(items := [Pair(junk, oldValue), Pair(key, newValue)])
    {
      size := 1;
      junk := slots[0].key;
      slots[0] := Pair(slots[0].key, oldValue);
      var _ := InsertNodeAfter(oldValue, key, newValue, 0);
    }

    method ValueIndex(value: PageId) returns (i: int)
      requires Valid()
      ensures i == if IndexOf(View().items, value) < size then IndexOf(View().items, value) else -1
    {
      i := 0;
      while i < size
        invariant 0 <= i <= size
        invariant forall k :: 0 <= k < i ==> slots[k].val != value
      {
        assert View().items[i] == slots[i];
        if slots[i].val == value {
          return;
        }
        i := i + 1;
      }
      i := -1;
    }

    method InternalRemove(index: nat)
      requires Valid() && !isLeaf && index < size
      modifies this`size, slots
      ensures Valid() && View() == old(View()).(items := RemoveAt(old(View()).items, index))
    {
      ShiftLeft(index);
      size := size - 1;
    }

    method RemoveAndReturnOnlyChild() returns (child: PageId)
      requires Valid() && !isLeaf && maxSize > 0
      modifies this`size
      ensures Valid() && child == slots[0].val && View() == old(View()).(items := [])
    {
      size := 0;
      child := slots[0].val;
    }

    method SetKeyAt(index: nat, key: Key)
      requires Valid() && index < size
      modifies slots
      ensures View() == old(View()).(items := old(View()).items[index := Pair(key, old(View()).items[index].val)])
    {
      slots[index] := Pair(key, slots[index].val);
    }

    method InternalMoveHalfTo(recipient: TreePage)
      requires Valid() && recipient.Valid() && !isLeaf && !recipient.isLeaf && recipient != this && recipient.slots != slots
      requires recipient.size == 0 && recipient.maxSize >= size
      modifies this`size, recipient`size, recipient.slots
      ensures Valid() && recipient.Valid()
      ensures var n := old(View()); var half := (|n.items| + 1) / 2;
        View() == n.(items := n.items[..half]) &&
        recipient.View() == old(recipient.View()).(items := n.items[half..])
    {
      var half := (size + 1) / 2;
      recipient.CopyNFrom(this, half, size - half);
      size := half;
    }

    /** The whole page goes behind the recipient's entries; slot 0 gets the separating key first. */
    method InternalMoveAllTo(recipient: TreePage, middle: Key)
      requires Valid() && recipient.Valid() && !isLeaf && !recipient.isLeaf && recipient != this && recipient.slots != slots
      requires 1 <= size && recipient.size + size <= recipient.maxSize
      modifies this`size, slots, recipient`size, recipient.slots
      ensures Valid() && recipient.Valid() && View() == old(View()).(items := [])
      ensures recipient.View() == old(recipient.View()).(items :=
        old(recipient.View()).items + old(View()).items[0 := Pair(middle, old(View()).items[0].val)])
    {
      slots[0] := Pair(middle, slots[0].val);
      assert slots[..size] == old(slots[..size])[0 := Pair(middle, old(slots[0]).val)];
      recipient.CopyNFrom(this, 0, size);
      size := 0;
    }

    /** First entry to the end of the left sibling, under the separating key. */
    method InternalMoveFirstToEndOf(recipient: TreePage, middle: Key)
      requires Valid() && recipient.Valid() && !isLeaf && !recipient.isLeaf && recipient != this && recipient.slots != slots
      requires 1 <= size && recipient.size < recipient.maxSize
      modifies this`size, slots, recipient`size, recipient.slots
      ensures Valid() && recipient.Valid() && View() == old(View()).(items := old(View()).items[1..])
      ensures recipient.View() == old(recipient.View()).(items :=
        old(recipient.View()).items + [Pair(middle, old(View()).items[0].val)])
    {
      slots[0] := Pair(middle, slots[0].val);
      recipient.slots[recipient.size] := slots[0];
      recipient.size := recipient.size + 1;
      label Shift:
      ShiftLeft(0);
      size := size - 1;
      assert slots[..size] == old@Shift(slots[..size])[1..];
    }

    /** Last entry to the front of the right sibling, whose former first entry gets the separating key. */
    method InternalMoveLastToFrontOf(recipient: TreePage, middle: Key)
      requires Valid() && recipient.Valid() && !isLeaf && !recipient.isLeaf && recipient != this && recipient.slots != slots
      requires 1 <= size && 1 <= recipient.size < recipient.maxSize
      modifies this`size, recipient`size, recipient.slots
      ensures Valid() && recipient.Valid() && View() == old(View()).(items := old(View()).items[..old(size) - 1])
      ensures var items := old(recipient.View()).items; recipient.View() == old(recipient.View()).(items :=
        [old(View()).items[old(size) - 1]] + items[0 := Pair(middle, items[0].val)])
    {
      recipient.slots[0] := Pair(middle, recipient.slots[0].val);
      label Shift:
      recipient.ShiftRight(0);
      recipient.slots[0] := slots[size - 1];
      recipient.size := recipient.size + 1;
      size := size - 1;
      assert recipient.slots[..recipient.size] == [recipient.slots[0]] + recipient.slots[1..recipient.size];
      assert recipient.slots[1..recipient.size] == old@Shift(recipient.slots[..recipient.size]);
    }
  }
}
