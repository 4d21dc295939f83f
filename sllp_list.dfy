/** The singly-linked list with head, tail and count (libsllpserver/sllp_list.c).
    The functions `ListAdd`, `ListValueAt` and `ListTrim` specify the list
    operations on the sequence of stored values; the class `List` implements
    them over linked nodes, and the registry applies the functions to its
    tables directly. */
module SllpList {
  import opened SllpTypes

  /** `sllp_list_add`: a value already present is refused and the list is left
      as it was; otherwise the value goes to the tail. */
  function ListAdd<T(==)>(s: seq<T>, v: T): (r: (SllpErr, seq<T>))
  {
    if v in s then (ParamOutOfRange, s) else (Success, s + [v])
  }

  /** `sllp_list_value_at`: the value at position `pos`, or out of range. */
  function ListValueAt<T>(s: seq<T>, pos: nat): (r: Result<T>)
  {
    if pos >= |s| then Err(ParamOutOfRange) else Ok(s[pos])
  }

  /** `sllp_list_trim`: keep the first `first` values. */
  function ListTrim<T>(s: seq<T>, first: nat): (r: (SllpErr, seq<T>))
  {
    if first == 0 then (Success, [])
    else if first >= |s| then (ParamOutOfRange, s)
    else (Success, s[..first])
  }

  ghost predicate Distinct<T>(s: seq<T>)
  {
    forall i, j :: 0 <= i < j < |s| ==> s[i] != s[j]
  }

  /** Adding never introduces a duplicate, and succeeds exactly when the value
      is new, in which case the list grows by one at the tail and keeps its
      earlier values in order; a refusal is out of range and leaves the list
      as it was. */
  lemma ListAddProperties<T>(s: seq<T>, v: T)
    requires Distinct(s)
    ensures Distinct(ListAdd(s, v).1)
    ensures ListAdd(s, v).0 == Success <==> v !in s
    ensures ListAdd(s, v).0 == Success ==>
              |ListAdd(s, v).1| == |s| + 1 && ListAdd(s, v).1[..|s|] == s && ListAdd(s, v).1[|s|] == v
    ensures ListAdd(s, v).0 != Success ==> ListAdd(s, v).0 == ParamOutOfRange && ListAdd(s, v).1 == s
  {
    if v !in s {
      var t := s + [v];
      forall i, j | 0 <= i < j < |t| ensures t[i] != t[j] {
        if j == |s| {
          assert t[i] == s[i];
        }
      }
      assert t[..|s|] == s;
    }
  }

  /** A successful lookup returns a value of the list, at exactly that
      position, and it fails only past the end. */
  lemma ListValueAtProperties<T>(s: seq<T>, pos: nat)
    ensures ListValueAt(s, pos).Ok? <==> pos < |s|
    ensures ListValueAt(s, pos).Ok? ==> ListValueAt(s, pos).value in s && ListValueAt(s, pos).value == s[pos]
    ensures ListValueAt(s, pos).Err? ==> ListValueAt(s, pos).error == ParamOutOfRange
  {
  }

  /** Trimming yields a prefix of the list; it is the length-`first` prefix
      whenever it succeeds, and a refusal is out of range with the list left
      as it was. */
  lemma ListTrimProperties<T>(s: seq<T>, first: nat)
    ensures ListTrim(s, first).1 <= s
    ensures ListTrim(s, first).0 == Success <==> first == 0 || first < |s|
    ensures ListTrim(s, first).0 == Success ==> ListTrim(s, first).1 == s[..first]
    ensures ListTrim(s, first).0 != Success ==> ListTrim(s, first).0 == ParamOutOfRange && ListTrim(s, first).1 == s
  {
  }

  /** `struct sllp_list_element`. */
  class Node<T> {
    var value: T
    var next: Node?<T>

    constructor (v: T)
      ensures value == v && next == null
    {
      value := v;
      next := null;
    }
  }

  /** `struct sllp_list`: `Contents` is the sequence of stored values and
      `Nodes` the chain of elements from `head` to `tail`. */
  class List<T(==)> {
    var head: Node?<T>
    var tail: Node?<T>
    var count: nat

    ghost var Contents: seq<T>
    ghost var Nodes: seq<Node<T>>
    ghost var Repr: set<object>

    ghost predicate Valid()
      reads this, Repr
    {
      && this in Repr
      && (forall i :: 0 <= i < |Nodes| ==> Nodes[i] in Repr)
      && count == |Nodes| == |Contents|
      && (forall i :: 0 <= i < |Nodes| ==> Nodes[i].value == Contents[i])
      && (forall i :: 0 <= i < |Nodes| - 1 ==> Nodes[i].next == Nodes[i + 1])
      && (forall i, j :: 0 <= i < j < |Nodes| ==> Nodes[i] != Nodes[j])
      && (|Nodes| == 0 ==> head == null && tail == null)
      && (|Nodes| > 0 ==> head == Nodes[0] && tail == Nodes[|Nodes| - 1] && tail.next == null)
    }

    /** `sllp_list_init`: the list is empty with count 0. */
    constructor Init()
      ensures Valid() && fresh(Repr)
      ensures Contents == [] && count == 0
    {
      head, tail, count := null, null, 0;
      Contents, Nodes := [], [];
      Repr := {this};
    }

    /** `sllp_list_clear`: the list becomes empty with count 0. */
    method Clear()
      requires Valid()
      modifies this
      ensures Valid() && Repr == old(Repr)
      ensures Contents == [] && count == 0
    {
      head, tail, count := null, null, 0;
      Contents, Nodes := [], [];
    }

    /** `sllp_list_contains`: walks the chain from the head. */
    method Contains(v: T) returns (found: bool)
      requires Valid()
      ensures found <==> v in Contents
    {
      found := false;
      var e := head;
      ghost var k := 0;
      while e != null
        invariant 0 <= k <= |Nodes|
        invariant k < |Nodes| ==> e == Nodes[k]
        invariant k == |Nodes| ==> e == null
        invariant v !in Contents[..k]
        decreases |Nodes| - k
      {
        if e.value == v {
          found := true;
          return;
        }
        assert Contents[..k + 1] == Contents[..k] + [Contents[k]];
        e := e.next;
        k := k + 1;
      }
      assert Contents[..k] == Contents;
    }

    /** `sllp_list_add`: refuses a value already present, otherwise links a new
        element after the tail. */
    method Add(v: T) returns (err: SllpErr)
      requires Valid()
      modifies Repr
      ensures Valid() && fresh(Repr - old(Repr))
      ensures (err, Contents) == ListAdd(old(Contents), v)
      ensures count == |Contents|
    {
      var present := Contains(v);
      if present {
        return ParamOutOfRange;
      }
      var element := new Node(v);
      if count != 0 {
        tail.next := element;
      } else {
        head := element;
      }
      tail := element;
      count := count + 1;
      Nodes := Nodes + [element];
      Contents := Contents + [v];
      Repr := Repr + {element};
      err := Success;
    }

    /** `sllp_list_element_at`: walks `pos` links from the head. */
    method ElementAt(pos: nat) returns (err: SllpErr, e: Node?<T>)
      requires Valid()
      ensures err == Success <==> pos < |Nodes|
      ensures err != Success ==> err == ParamOutOfRange
      ensures err == Success ==> e == Nodes[pos]
    {
      if pos >= count {
        return ParamOutOfRange, null;
      }
      e := head;
      var i := 0;
      while i < pos
        invariant 0 <= i <= pos
        invariant e == Nodes[i]
      {
        e := e.next;
        i := i + 1;
      }
      err := Success;
    }

    /** `sllp_list_value_at`. */
    method ValueAt(pos: nat) returns (r: Result<T>)
      requires Valid()
      ensures r == ListValueAt(Contents, pos)
    {
      var err, e := ElementAt(pos);
      if err != Success {
        return Err(err);
      }
      r := Ok(e.value);
    }

    /** `sllp_list_trim`: `first == 0` clears; otherwise the element at
        `first` must exist, the element before it becomes the tail and the
        count becomes `first`. */
    method Trim(first: nat) returns (err: SllpErr)
      requires Valid()
      modifies Repr
      ensures Valid() && Repr == old(Repr)
      ensures (err, Contents) == ListTrim(old(Contents), first)
      ensures count == |Contents|
    {
      if first == 0 {
        Clear();
        return Success;
      }
      var found, cut := ElementAt(first);
      if found != Success {
        return ParamOutOfRange;
      }
      var _, last := ElementAt(first - 1);
      tail := last;
      // The source leaves the new tail linked to the released elements;
      // the list is terminated here, as a later traversal expects.
      tail.next := null;
      count := first;
      Nodes := Nodes[..first];
      Contents := Contents[..first];
      err := Success;
    }

    /** `sllp_list_copy_to_vector`: the values in order into `vector[0..count-1]`
        and the terminator at `vector[count]`. */
    method CopyToVector(vector: array<Option<T>>)
      requires Valid()
      requires count < vector.Length
      modifies vector
      ensures forall i :: 0 <= i < count ==> vector[i] == Some(Contents[i])
      ensures vector[count] == None
      ensures forall i :: count < i < vector.Length ==> vector[i] == old(vector[i])
    {
      var e := head;
      var i := 0;
      while i < count
        invariant 0 <= i <= count
        invariant i < count ==> e == Nodes[i]
        invariant forall j :: 0 <= j < i ==> vector[j] == Some(Contents[j])
        invariant forall j :: count <= j < vector.Length ==> vector[j] == old(vector[j])
      {
        vector[i] := Some(e.value);
        e := e.next;
        i := i + 1;
      }
      vector[count] := None;
    }
  }
}
