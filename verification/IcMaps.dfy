/** Dispatch tables of a server: merging them and looking an operation up. */
module IcMaps {

  datatype Operation = Operation(interface_: string, name: string, function_: int)

  datatype Dispatch = Call(function_: int) | BadOperation

  /** All operations of all tables, in order. */
  function Concat(maps: seq<seq<Operation>>): seq<Operation> {
    if maps == [] then [] else maps[0] + Concat(maps[1..])
  }

  /** The first operation of that name in a table. */
  function Lookup(ops: seq<Operation>, name: string): Dispatch {
    if ops == [] then BadOperation
    else if ops[0].name == name then Call(ops[0].function_)
    else Lookup(ops[1..], name)
  }

  /** By index: the function of the first operation of that name, and a bad operation if there
      is none. */
  lemma {:induction false} LookupByIndex(ops: seq<Operation>, name: string)
    ensures Lookup(ops, name) == BadOperation <==> forall k :: 0 <= k < |ops| ==> ops[k].name != name
    ensures forall k :: 0 <= k < |ops| && ops[k].name == name && (forall j :: 0 <= j < k ==> ops[j].name != name) ==>
      Lookup(ops, name) == Call(ops[k].function_)
  {
    if ops != [] && ops[0].name != name {
      LookupByIndex(ops[1..], name);
      assert forall k :: 1 <= k < |ops| ==> ops[k] == ops[1..][k - 1];
      forall k | 0 <= k < |ops| && ops[k].name == name && (forall j :: 0 <= j < k ==> ops[j].name != name)
        ensures Lookup(ops, name) == Call(ops[k].function_)
      {
        assert ops[1..][k - 1] == ops[k];
        assert forall j :: 0 <= j < k - 1 ==> ops[1..][j] == ops[j + 1];
      }
    }
  }

  /** One table after the other, the first one that knows the name decides. */
  function LookupInAll(maps: seq<seq<Operation>>, name: string): Dispatch {
    if maps == [] then BadOperation
    else if Lookup(maps[0], name).Call? then Lookup(maps[0], name)
    else LookupInAll(maps[1..], name)
  }

  lemma {:induction false} LookupAppend(s: seq<Operation>, t: seq<Operation>, name: string)
    ensures Lookup(s + t, name) == if Lookup(s, name).Call? then Lookup(s, name) else Lookup(t, name)
  {
    if s == [] {
      assert s + t == t;
    } else {
      assert (s + t)[1..] == s[1..] + t;
      LookupAppend(s[1..], t, name);
    }
  }

  /** Looking a name up in the merged table finds what searching the tables finds. */
  lemma {:induction false} MergedLookup(maps: seq<seq<Operation>>, name: string)
    ensures Lookup(Concat(maps), name) == LookupInAll(maps, name)
  {
    if maps != [] {
      LookupAppend(maps[0], Concat(maps[1..]), name);
      MergedLookup(maps[1..], name);
    }
  }

  /** A table that was itself merged serves like its parts in its place. */
  lemma {:induction false} NestedMerge(maps: seq<seq<Operation>>, more: seq<seq<Operation>>)
    ensures Concat([Concat(maps)] + more) == Concat(maps + more)
  {
    assert ([Concat(maps)] + more)[1..] == more;
    if maps == [] {
      assert maps + more == more;
    } else {
      assert (maps + more)[1..] == maps[1..] + more;
      NestedMerge(maps[1..], more);
      assert ([Concat(maps[1..])] + more)[1..] == more;
    }
  }

  /** Where the operations of each table stand in the merged one, and that there are no others. */
  lemma {:induction false} ConcatByIndex(maps: seq<seq<Operation>>, i: nat, j: nat)
    requires i < |maps| && j < |maps[i]|
    ensures |Concat(maps[..i])| + j < |Concat(maps)|
    ensures Concat(maps)[|Concat(maps[..i])| + j] == maps[i][j]
    decreases i
  {
    if i == 0 {
      assert maps[..0] == [];
    } else {
      assert maps[..i][0] == maps[0] && maps[..i][1..] == maps[1..][..i - 1];
      ConcatByIndex(maps[1..], i - 1, j);
    }
  }

  function Sum(maps: seq<seq<Operation>>): nat {
    if maps == [] then 0 else |maps[0]| + Sum(maps[1..])
  }

  lemma {:induction false} ConcatLength(maps: seq<seq<Operation>>)
    ensures |Concat(maps)| == Sum(maps)
  {
    if maps != [] {
      ConcatLength(maps[1..]);
    }
  }

  lemma {:induction false} ConcatSnoc(maps: seq<seq<Operation>>, m: seq<Operation>)
    ensures Concat(maps + [m]) == Concat(maps) + m
  {
    if maps == [] {
      assert maps + [m] == [m];
    } else {
      assert (maps + [m])[1..] == maps[1..] + [m];
      ConcatSnoc(maps[1..], m);
    }
  }

  lemma PrefixLength(maps: seq<seq<Operation>>, i: nat)
    requires i < |maps|
    ensures Concat(maps[..i + 1]) == Concat(maps[..i]) + maps[i]
    ensures |Concat(maps[..i + 1])| <= |Concat(maps)|
    decreases |maps| - i
  {
    assert maps[..i + 1] == maps[..i] + [maps[i]];
    ConcatSnoc(maps[..i], maps[i]);
    if i + 1 < |maps| {
      PrefixLength(maps, i + 1);
    } else {
      assert maps[..i + 1] == maps;
    }
  }

  /** No table for no input, else one new table with everything. */
  method MergeMaps(maps: seq<seq<Operation>>) returns (merged: array?<Operation>)
    ensures maps == [] ==> merged == null
    ensures maps != [] ==> merged != null && fresh(merged) && merged[..] == Concat(maps)
  {
    if |maps| <= 0 {
      return null;
    }
    var length := 0;
    for i := 0 to |maps|
      invariant length == |Concat(maps[..i])|
    {
      PrefixLength(maps, i);
      length := length + |maps[i]|;
    }
    assert maps[..|maps|] == maps;
    var ops := new Operation[length];
    var len := 0;
    for i := 0 to |maps|
      invariant len == |Concat(maps[..i])| <= length && ops[..len] == Concat(maps[..i])
    {
      PrefixLength(maps, i);
      for j := 0 to |maps[i]|
        invariant ops[..len + j] == Concat(maps[..i]) + maps[i][..j]
      {
        ops[len + j] := maps[i][j];
      }
      len := len + |maps[i]|;
    }
    return ops;
  }

  /** The loop of the switch over the operation names. */
  method ExecSwitch(ops: array<Operation>, op: string) returns (r: Dispatch)
    ensures r == Lookup(ops[..], op)
    ensures r == BadOperation <==> forall k :: 0 <= k < ops.Length ==> ops[k].name != op
    ensures forall k :: 0 <= k < ops.Length && ops[k].name == op && (forall j :: 0 <= j < k ==> ops[j].name != op) ==>
      r == Call(ops[k].function_)
  {
    LookupByIndex(ops[..], op);
    assert ops[0..] == ops[..];
    for index := 0 to ops.Length
      invariant Lookup(ops[..], op) == Lookup(ops[index..], op)
    {
      assert ops[index..][1..] == ops[index + 1..];
      if ops[index].name == op {
        return Call(ops[index].function_);
      }
    }
    return BadOperation;
  }
}
