/** Banks of `struct secvar` objects on intrusive lists, and what is done to them in place. */
module SecvarBank {
  import opened Bytes
  import opened Codes
  import opened Keys
  import opened Platform
  import opened Timestamp
  import opened IntrusiveList
  import opened Update

  const MAX_KEY_LEN := 1024

  /** A `struct secvar`: its buffer may be larger than what it holds. The embedded link is the node that owns it. */
  class Secvar {
    var key: bytes
    var data: array<byte>
    var dataSize: nat
    var flags: Flags
    /** what key, buffer and flags amount to */
    ghost var value: Var

    ghost predicate Valid()
      reads this, data
    {
      && 0 < |key| <= MAX_KEY_LEN
      && dataSize <= data.Length && dataSize <= INT_MAX
      && value == Var(key, data[..dataSize], flags)
    }

    /** `alloc_secvar`: zeroed key and buffer. */
    constructor (keyLen: nat, size: nat)
      ensures fresh(data) && data.Length == dataSize == size && data[..] == Zeros(size)
      ensures key == Zeros(keyLen) && flags == NO_FLAGS
      ensures 0 < keyLen <= MAX_KEY_LEN && size <= INT_MAX ==> Valid() && value == Var(Zeros(keyLen), Zeros(size), NO_FLAGS)
    {
      key := Zeros(keyLen);
      data := new byte[size](_ => 0);
      dataSize := size;
      flags := NO_FLAGS;
      value := Var(Zeros(keyLen), if size <= INT_MAX then Zeros(size) else [], NO_FLAGS);
      new;
      assert data[..] == Zeros(size) && data[..dataSize] == data[..];
    }

    /** `realloc_secvar`: a larger buffer with the same contents; a smaller request keeps the buffer. */
    method Realloc(size: nat)
      requires Valid() && size <= INT_MAX
      modifies this
      ensures Valid() && value == old(value) && data.Length >= size && dataSize == old(dataSize)
      ensures data == old(data) || fresh(data)
      ensures size <= old(dataSize) ==> data == old(data)
    {
      if dataSize >= size {
        return;
      }
      var tmp := new byte[size](_ => 0);
      Memcpy(tmp, 0, data[..dataSize]);
      assert tmp[..dataSize] == data[..dataSize];
      data := tmp;
    }

    /** Overwrites the value in place, growing the buffer only when the held size is too small. */
    method Store(content: Blob, newFlags: Flags)
      requires Valid()
      modifies this, data
      ensures Valid() && value == Var(old(value).key, content, newFlags)
      ensures data == old(data) || fresh(data)
    {
      if dataSize < |content| {
        Realloc(|content|);
      }
      Memcpy(data, 0, content);
      assert data[..|content|] == content;
      dataSize := |content|;
      flags := newFlags;
      value := Var(key, content, newFlags);
    }

    /** `update_timestamp` on this variable's buffer, which is neither grown nor replaced. */
    method StoreTime(name: bytes, t: EfiTime) returns (rc: int)
      requires Valid() && |value.data| == TS_SIZE
      modifies this, data
      ensures Valid() && data == old(data)
      ensures rc == if SlotOf(name).Some? then OPAL_SUCCESS else OPAL_INTERNAL_ERROR
      ensures value == if SlotOf(name).None? then old(value)
                       else old(value).(data := SetSlot(old(value).data, SlotOf(name).value, t))
    {
      rc := UpdateTimestamp(name, t, data);
      value := Var(key, data[..dataSize], flags);
    }
  }

  /** `new_secvar`: a deep copy of key and data with its link, or nothing for a key of bad length. */
  method NewSecvar(key: bytes, data: Blob, flags: Flags) returns (link: ListNode?<Secvar?>)
    ensures link != null <==> 0 < |key| <= MAX_KEY_LEN
    ensures link != null ==> link.owner != null && fresh(link) && fresh(link.owner) && fresh(link.owner.data)
    ensures link != null ==> link.owner.Valid() && link.owner.value == Var(key, data, flags)
  {
    if |key| == 0 || |key| > MAX_KEY_LEN {
      return null;
    }
    var v := new Secvar(|key|, |data|);
    v.key := key;
    v.flags := flags;
    Memcpy(v.data, 0, data);
    v.value := Var(key, data, flags);
    assert v.data[..v.dataSize] == data;
    link := new ListNode<Secvar?>(v);
  }

  lemma FindIs(bank: seq<Var>, key: bytes, k: nat)
    requires k <= |bank| && forall j | 0 <= j < k :: bank[j].key != key
    ensures k < |bank| && bank[k].key == key ==> Find(bank, key) == Some(k)
    ensures k == |bank| ==> Find(bank, key) == None
  {
  }

  lemma DistinctUpdate<A>(s: seq<A>, i: nat, a: A)
    requires Distinct(s) && i < |s| && (s[i] == a || a !in s)
    ensures Distinct(s[i := a])
  {
  }

  lemma DistinctAppend<A>(s: seq<A>, a: A)
    requires Distinct(s) && a !in s
    ensures Distinct(s + [a])
  {
  }

  lemma TakeNext<A>(was: seq<A>, all: seq<A>, k: nat)
    requires k < |all|
    ensures was + all[..k] + [all[k]] == was + all[..k + 1]
  {
  }

  /** A bank: the list of the variables' links. */
  class Bank {
    const head: ListHead<Secvar?>
    ghost var vars: seq<Secvar>
    /** the buffer of each variable */
    ghost var buffers: seq<array<byte>>
    ghost var Contents: seq<Var>
    ghost var Repr: set<object>

    /** The list links exactly the variables, in order. */
    ghost predicate Linked()
      reads this, head, head.ring
    {
      && head.Valid()
      && |head.ring| == |vars| + 1
      && forall i | 0 <= i < |vars| :: head.ring[i + 1].owner == vars[i]
    }

    /** The variables hold `Contents`, each in a buffer of its own. */
    ghost predicate Stored()
      reads this, vars, buffers
    {
      && |vars| == |buffers| == |Contents|
      && Distinct(vars) && Distinct(buffers)
      && forall i | 0 <= i < |vars| :: vars[i].data == buffers[i] && vars[i].Valid() && vars[i].value == Contents[i]
    }

    ghost predicate Valid()
      reads this, Repr
      ensures Valid() ==> this in Repr && head in Repr && head.n in Repr && |vars| == |Contents|
    {
      && this in Repr && head in Repr
      && (forall x | x in head.ring :: x in Repr)
      && (forall x | x in vars :: x in Repr)
      && (forall x | x in buffers :: x in Repr)
      && Linked() && Stored()
      && head.ring[0] in Repr
    }

    constructor ()
      ensures Valid() && fresh(Repr) && Contents == []
    {
      head := new ListHead<Secvar?>(null);
      vars, buffers, Contents := [], [], [];
      new;
      Repr := {this, head, head.n};
    }

    /** `list_head_init`: forgets whatever the list held. */
    method Init()
      modifies this, head, head.n
      ensures Valid() && Contents == [] && Repr == {this, head, head.n}
    {
      head.Init();
      vars, buffers, Contents := [], [], [];
      Repr := {this, head, head.n};
    }

    /** `list_empty` */
    method IsEmpty() returns (empty: bool)
      requires Valid()
      ensures empty <==> Contents == []
    {
      empty := head.IsEmpty();
    }

    /** The node a traversal is at after `k` entries: the head once all are passed. */
    ghost function NodeAt(k: nat): (r: ListNode<Secvar?>)
      requires Valid() && k <= |Contents|
      reads this, Repr
    {
      if k < |Contents| then head.ring[k + 1] else head.n
    }

    /** Start of `list_for_each`. */
    method First() returns (i: ListNode<Secvar?>)
      requires Valid()
      ensures i == NodeAt(0)
    {
      i := head.n.next;
    }

    /** The end test and the step of `list_for_each`, with the variable it is at. */
    method Visit(i: ListNode<Secvar?>, ghost k: nat) returns (v: Secvar?, nxt: ListNode<Secvar?>)
      requires Valid() && k <= |Contents| && i == NodeAt(k)
      ensures v == null <==> k == |Contents|
      ensures v != null ==> v == vars[k] && v in Repr && v.data in Repr && v.Valid() && v.value == Contents[k] && nxt == NodeAt(k + 1)
    {
      assert head.ring[0] == head.n;
      if i == head.n {
        return null, i;
      }
      v, nxt := i.owner, i.next;
      assert v == vars[k] && v.data == buffers[k];
    }

    /** `find_secvar` */
    method FindVar(key: bytes) returns (v: Secvar?)
      requires Valid()
      ensures v == null <==> Find(Contents, key).None?
      ensures v != null ==> v == vars[Find(Contents, key).value] && v.Valid() && v.value.key == key
    {
      var i := First();
      ghost var k := 0;
      while true
        invariant 0 <= k <= |Contents| && i == NodeAt(k)
        invariant forall j | 0 <= j < k :: Contents[j].key != key
        decreases |Contents| - k
      {
        var candidate, nxt := Visit(i, k);
        if candidate == null {
          FindIs(Contents, key, k);
          return null;
        }
        if candidate.key == key {
          FindIs(Contents, key, k);
          return candidate;
        }
        i := nxt;
        k := k + 1;
      }
    }

    /** What a variable holds, read from its fields. */
    lemma ValueAt(v: Secvar, i: nat)
      requires Valid() && i < |vars| && vars[i] == v
      ensures i < |Contents| && Contents[i] == Var(v.key, v.data[..v.dataSize], v.flags)
    {
    }

    /** The buffer of a variable holds its value at the front. */
    lemma BufferAt(v: Secvar, i: nat)
      requires Valid() && i < |vars| && vars[i] == v
      ensures i < |Contents| && |Contents[i].data| <= v.data.Length
      ensures v.data[..|Contents[i].data|] == Contents[i].data
      ensures i < |buffers| && buffers[i] == v.data
    {
    }

    /** The variable of a name is empty exactly when its size is 0. */
    lemma HeldAt(v: Secvar, name: bytes)
      requires Valid() && Find(Contents, Terminated(name)).Some?
      requires vars[Find(Contents, Terminated(name)).value] == v
      ensures v.dataSize == 0 <==> Held(Contents, name) == []
    {
      assert v.Valid();
    }

    /** `list_length` */
    method Length() returns (count: nat)
      requires Valid()
      ensures count == |Contents|
    {
      var visited := head.ForEach();
      count := |visited|;
    }

    /** `list_add_tail` of a variable not yet on any list. */
    method AddTail(link: ListNode<Secvar?>)
      requires Valid() && link.owner != null && link.owner.Valid()
      requires link !in Repr && link.owner !in Repr && link.owner.data !in Repr
      modifies Repr, link
      ensures Valid() && Contents == old(Contents) + [old(link.owner.value)] && vars == old(vars) + [link.owner]
      ensures Repr == old(Repr) + {link, link.owner, link.owner.data}
    {
      var v := link.owner;
      head.AddTail(link);
      assert Stored();
      Extend(v);
      Repr := Repr + {link};
    }

    /** The ghost view of a variable whose link was just appended. */
    ghost method Extend(v: Secvar)
      requires Stored() && v.Valid() && v !in vars && v.data !in buffers
      modifies this
      ensures Stored() && vars == old(vars) + [v] && Contents == old(Contents) + [v.value]
      ensures buffers == old(buffers) + [v.data]
      ensures Repr == old(Repr) + {v, v.data}
    {
      DistinctAppend(vars, v);
      DistinctAppend(buffers, v.data);
      vars, buffers, Contents := vars + [v], buffers + [v.data], Contents + [v.value];
      Repr := Repr + {v, v.data};
    }

    /** `clear_bank_list`: unlinks and frees every variable. */
    method Clear()
      requires Valid()
      modifies Repr
      ensures Valid() && Contents == [] && Repr <= old(Repr)
    {
      var visited := head.DeleteEach();
      vars, buffers, Contents := [], [], [];
      Repr := {this, head, head.n};
    }

    /** Appends a fresh variable equal to `v`. */
    method AppendCopy(v: Secvar)
      requires Valid() && v.Valid()
      modifies Repr
      ensures Valid() && Contents == old(Contents) + [old(v.value)]
      ensures fresh(Repr - old(Repr))
    {
      var tmp := NewSecvar(v.key, v.data[..v.dataSize], v.flags);
      AddTail(tmp);
    }

    /** The same, and another bank is not touched by it. */
    method AppendCopyBeside(v: Secvar, ghost other: Bank)
      requires Valid() && v.Valid()
      requires other.Valid() && Repr !! other.Repr
      modifies Repr
      ensures Valid() && Contents == old(Contents) + [old(v.value)]
      ensures fresh(Repr - old(Repr))
      ensures other.Valid() && Repr !! other.Repr && other.Contents == old(other.Contents)
    {
      AppendCopy(v);
    }

    /** `copy_bank_list`: appends fresh variables with their own keys and buffers, equal to those of `src`. */
    method CopyFrom(src: Bank)
      requires Valid() && src.Valid() && Repr !! src.Repr
      modifies Repr
      ensures Valid() && Contents == old(Contents) + src.Contents
      ensures fresh(Repr - old(Repr))
    {
      hide Valid;
      hide NodeAt;
      ghost var was, all := Contents, src.Contents;
      var i := src.First();
      ghost var k := 0;
      assert was + all[..0] == was;
      while true
        invariant Valid() && fresh(Repr - old(Repr))
        invariant src.Valid() && Repr !! src.Repr && src.Contents == all
        invariant 0 <= k <= |all| && i == src.NodeAt(k)
        invariant Contents == was + all[..k]
        decreases |all| - k
      {
        var v, nxt := src.Visit(i, k);
        if v == null {
          assert all[..k] == all;
          return;
        }
        AppendCopyBeside(v, src);
        TakeNext(was, all, k);
        i := nxt;
        k := k + 1;
      }
    }

    /** The ghost view after the variable at `i` was written in place. */
    ghost method Refresh(i: nat)
      requires Linked() && |vars| == |buffers| == |Contents| && i < |vars| && Distinct(vars)
      requires Distinct(buffers) && (vars[i].data == buffers[i] || vars[i].data !in buffers)
      requires forall j | 0 <= j < |vars| && j != i :: vars[j].data == buffers[j] && vars[j].Valid() && vars[j].value == Contents[j]
      requires vars[i].Valid()
      modifies this
      ensures Linked() && Stored() && vars == old(vars) && Contents == old(Contents)[i := vars[i].value]
      ensures buffers == old(buffers)[i := vars[i].data]
      ensures Repr == old(Repr) + {vars[i].data}
    {
      DistinctUpdate(buffers, i, vars[i].data);
      buffers := buffers[i := vars[i].data];
      Contents := Contents[i := vars[i].value];
      Repr := Repr + {vars[i].data};
    }

    /** Writes the variable at `i` in place; every other variable keeps its buffer and value. */
    method Overwrite(v: Secvar, ghost i: nat, content: Blob, newFlags: Flags)
      requires Valid() && i < |vars| && vars[i] == v
      modifies this, v, v.data
      ensures Valid() && fresh(Repr - old(Repr))
      ensures vars == old(vars)
      ensures Contents == old(Contents)[i := Var(old(Contents)[i].key, content, newFlags)]
      ensures buffers == old(buffers)[i := v.data]
    {
      assert forall j | 0 <= j < |vars| && j != i :: vars[j] != v && buffers[j] != v.data;
      v.Store(content, newFlags);
      assert Linked();
      assert forall j | 0 <= j < |vars| && j != i :: vars[j].Valid() && vars[j].value == Contents[j];
      Refresh(i);
    }

    /** `update_variable_in_bank` */
    method UpdateVariable(key: bytes, content: Blob) returns (rc: int)
      requires Valid()
      modifies Repr
      ensures Valid() && fresh(Repr - old(Repr))
      ensures vars == old(vars)
      ensures rc == if Find(old(Contents), key).Some? then OPAL_SUCCESS else OPAL_EMPTY
      ensures Find(old(Contents), key).None? ==> Contents == old(Contents) && buffers == old(buffers)
      ensures Find(old(Contents), key).Some? ==>
                var i := Find(old(Contents), key).value;
                && Contents == old(Contents)[i := Var(key, content, UpdatedFlags(key, old(Contents)[i].flags, content))]
                && forall j | 0 <= j < |vars| && j != i :: buffers[j] == old(buffers[j])
    {
      var v := FindVar(key);
      if v == null {
        return OPAL_EMPTY;
      }
      ghost var i := Find(Contents, key).value;
      var newFlags := FlagsFor(key, v.flags, content);
      Overwrite(v, i, content, newFlags);
      rc := OPAL_SUCCESS;
    }

    /** `update_timestamp` on the buffer of the TS variable, which stands at `i`. */
    method StoreTime(ts: Secvar, ghost i: nat, key: bytes, t: EfiTime) returns (rc: int)
      requires Valid() && i < |vars| && vars[i] == ts && |Contents[i].data| == TS_SIZE
      modifies this, ts, ts.data
      ensures Valid() && Repr == old(Repr) && vars == old(vars) && buffers == old(buffers)
      ensures rc == if SlotOf(key).Some? then OPAL_SUCCESS else OPAL_INTERNAL_ERROR
      ensures Contents == if SlotOf(key).None? then old(Contents)
                          else old(Contents)[i := old(Contents)[i].(data := SetSlot(old(Contents)[i].data, SlotOf(key).value, t))]
    {
      assert forall j | 0 <= j < |vars| && j != i :: vars[j] != ts && buffers[j] != ts.data;
      rc := ts.StoreTime(key, t);
      assert Linked();
      assert forall j | 0 <= j < |vars| && j != i :: vars[j].Valid() && vars[j].value == Contents[j];
      Refresh(i);
    }
  }

  /** The new flags: volatile is cleared only by a value with data, and PK is protected. */
  method FlagsFor(key: bytes, flags: Flags, content: bytes) returns (f: Flags)
    ensures f == UpdatedFlags(key, flags, content)
  {
    f := flags;
    if |content| > 0 {
      f := f.(isVolatile := false);
    } else {
      f := f.(isVolatile := true);
    }
    if KeyEquals(key, PK) || KeyEquals(key, HWKH) {
      f := f.(isProtected := true);
    }
  }
}
