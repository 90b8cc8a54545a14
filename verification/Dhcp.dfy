/** Reading the options of a DHCP reply (run_dhcp_client in init/kratos-net.c). The option
    format is section 2 of RFC 2132. */
module Dhcp {
  import opened Bytes

  const PAD: byte := 0
  const END: byte := 255
  const MASK: byte := 1
  const ROUTER: byte := 3
  const DNS: byte := 6

  datatype Opt = Opt(tag: byte, value: bytes)

  // The options in the received bytes: up to END, or to the first one that is cut off.
  function Options(s: bytes): seq<Opt>
    decreases |s|
  {
    if s == [] || s[0] == END then []
    else if s[0] == PAD then Options(s[1..])
    else if |s| < 2 || |s| < 2 + s[1] as int then []
    else [Opt(s[0], s[2..2 + s[1]])] + Options(s[2 + s[1]..])
  }

  // Which options set which address.
  predicate SetsMask(o: Opt) { o.tag == MASK && |o.value| == 4 }
  predicate SetsRouter(o: Opt) { o.tag == ROUTER && |o.value| >= 4 }
  predicate SetsDns(o: Opt) { o.tag == DNS && |o.value| >= 4 }

  // The address in the last option that sets it.
  function LastAddress(options: seq<Opt>, sets: Opt -> bool): Option<bytes>
    requires forall o | o in options && sets(o) :: |o.value| >= 4
  {
    if options == [] then None
    else if sets(options[|options| - 1]) then Some(options[|options| - 1].value[..4])
    else LastAddress(options[..|options| - 1], sets)
  }

  datatype Lease = Lease(mask: bytes, gateway: Option<bytes>, dns: bytes)

  function Or(a: Option<bytes>, default: bytes): bytes { if a == None then default else a.value }

  // 255.255.255.0 and 1.1.1.1 stand in for what the reply does not say.
  function LeaseOf(options: seq<Opt>): Lease
  {
    Lease(Or(LastAddress(options, SetsMask), [255, 255, 255, 0]),
          LastAddress(options, SetsRouter),
          Or(LastAddress(options, SetsDns), [1, 1, 1, 1]))
  }

  // The option loop, on the bytes that were received.
  method ParseOptions(opts: bytes) returns (lease: Lease)
    ensures lease == LeaseOf(Options(opts))
  {
    hide LeaseOf, Options;
    var mask: bytes, gateway: Option<bytes>, dns: bytes := [255, 255, 255, 0], None, [1, 1, 1, 1];
    ghost var seen: seq<Opt> := [];
    NoAddress();
    var idx: nat := 0;
    assert opts[0..] == opts;
    while idx < |opts| && opts[idx] != END
      invariant idx <= |opts| && Lease(mask, gateway, dns) == LeaseOf(seen) &&
        Options(opts) == seen + Options(opts[idx..])
    {
      var opt := opts[idx];
      if opt == PAD {
        PadAt(opts, idx);
        idx := idx + 1;
        continue;
      }
      if idx + 1 >= |opts| { break; }
      var len := opts[idx + 1] as int;
      if idx + 2 + len > |opts| { break; }
      ghost var o := Opt(opt, opts[idx + 2..idx + 2 + len]);
      OptionAt(opts, idx);
      Latest(seen, o);
      if opt == MASK && len == 4 {
        mask := opts[idx + 2..idx + 6];
      } else if opt == ROUTER && len >= 4 {
        gateway := Some(opts[idx + 2..idx + 6]);
      } else if opt == DNS && len >= 4 {
        dns := opts[idx + 2..idx + 6];
      }
      if len >= 4 { assert o.value[..4] == opts[idx + 2..idx + 6]; }
      Regroup(seen, o, Options(opts[idx + 2 + len..]));
      seen := seen + [o];
      idx := idx + 2 + len;
    }
    StopAt(opts, idx);
    assert seen + [] == seen;
    return Lease(mask, gateway, dns);
  }

  lemma Regroup(a: seq<Opt>, o: Opt, b: seq<Opt>)
    ensures a + ([o] + b) == a + [o] + b
  {
  }

  lemma PadAt(s: bytes, i: nat)
    requires i < |s| && s[i] == PAD
    ensures Options(s[i..]) == Options(s[i + 1..])
  {
    assert s[i..][1..] == s[i + 1..];
  }

  lemma StopAt(s: bytes, i: nat)
    requires i <= |s|
    requires i == |s| || s[i] == END || (s[i] != PAD && (i + 1 == |s| || i + 2 + s[i + 1] as int > |s|))
    ensures Options(s[i..]) == []
  {
  }

  lemma NoAddress()
    ensures LeaseOf([]) == Lease([255, 255, 255, 0], None, [1, 1, 1, 1])
  {
  }

  lemma OptionAt(s: bytes, i: nat)
    requires i + 1 < |s| && s[i] != PAD && s[i] != END && i + 2 + s[i + 1] as int <= |s|
    ensures var n := s[i + 1] as int; Options(s[i..]) == [Opt(s[i], s[i + 2..i + 2 + n])] + Options(s[i + 2 + n..])
  {
    var n := s[i + 1] as int;
    assert s[i..][2..2 + n] == s[i + 2..i + 2 + n] && s[i..][2 + n..] == s[i + 2 + n..];
  }

  // A later option overrides the earlier ones.
  lemma Latest(options: seq<Opt>, o: Opt)
    ensures LeaseOf(options + [o]) ==
      Lease(if SetsMask(o) then o.value[..4] else LeaseOf(options).mask,
            if SetsRouter(o) then Some(o.value[..4]) else LeaseOf(options).gateway,
            if SetsDns(o) then o.value[..4] else LeaseOf(options).dns)
  {
    assert (options + [o])[..|options|] == options;
  }

  /* ---- Writing options ---- */

  datatype Item = Filler | Value(opt: Opt)

  predicate Sendable(i: Item)
  {
    i.Value? ==> i.opt.tag != 0 && i.opt.tag != 255 && |i.opt.value| < 256
  }

  function EncodeItem(i: Item): bytes
    requires Sendable(i)
  {
    match i
    case Filler => [0]
    case Value(o) =>
      var n: byte := |o.value|;
      [o.tag, n] + o.value
  }

  function Encode(items: seq<Item>): bytes
    requires forall i | i in items :: Sendable(i)
  {
    if items == [] then []
    else
      assert items[0] in items;
      EncodeItem(items[0]) + Encode(items[1..])
  }

  function Values(items: seq<Item>): seq<Opt>
  {
    if items == [] then []
    else (match items[0] case Filler => [] case Value(o) => [o]) + Values(items[1..])
  }

  // Options written one after the other, with filling between them, are read back in order,
  // whether END and anything else follows or the message just ends.
  lemma {:induction false} ReadsBack(items: seq<Item>, tail: bytes)
    requires (forall i | i in items :: Sendable(i)) && (tail == [] || tail[0] == 255)
    ensures Options(Encode(items) + tail) == Values(items)
  {
    hide Options;
    if items == [] {
      Ended(tail);
      assert [] + tail == tail;
    } else {
      var i, rest := items[0], Encode(items[1..]) + tail;
      assert i in items;
      ReadsBack(items[1..], tail);
      ItemRead(i, rest);
      assert Encode(items) + tail == EncodeItem(i) + rest;
    }
  }

  lemma Ended(s: bytes)
    requires s == [] || s[0] == END
    ensures Options(s) == []
  {
  }

  lemma ItemRead(i: Item, rest: bytes)
    requires Sendable(i)
    ensures Options(EncodeItem(i) + rest) == (match i case Filler => [] case Value(o) => [o]) + Options(rest)
  {
    var s := EncodeItem(i) + rest;
    match i
    case Filler =>
      assert s[1..] == rest;
    case Value(o) =>
      var n := |o.value|;
      assert s[0] == o.tag && s[1] == n && s[2..2 + n] == o.value && s[2 + n..] == rest;
  }

  // An item with an address in it: the mask has four bytes, the lists have at least four.
  predicate Holds(i: Item, tag: byte, list: bool)
  {
    i.Value? && i.opt.tag == tag && if list then |i.opt.value| >= 4 else |i.opt.value| == 4
  }

  predicate LastHolder(items: seq<Item>, k: nat, tag: byte, list: bool)
    requires k < |items|
  {
    Holds(items[k], tag, list) && forall j | k < j < |items| :: !Holds(items[j], tag, list)
  }

  // What the last item that holds an address has, if any does.
  predicate Gives(items: seq<Item>, tag: byte, list: bool, address: Option<bytes>)
  {
    match address
    case None => forall i | i in items :: !Holds(i, tag, list)
    case Some(v) =>
      exists k | 0 <= k < |items| :: LastHolder(items, k, tag, list) && v == Prefix(items[k].opt.value, 4)
  }

  // The options a function of them singles out are those that hold the address.
  ghost predicate SetBy(sets: Opt -> bool, tag: byte, list: bool)
  {
    forall o :: sets(o) <==> Holds(Value(o), tag, list)
  }

  lemma {:induction false} LastGives(items: seq<Item>, sets: Opt -> bool, tag: byte, list: bool)
    requires SetBy(sets, tag, list)
    ensures Gives(items, tag, list, LastAddress(Values(items), sets))
  {
    hide Gives, LastAddress, Values, Holds;
    assert forall o | sets(o) :: |o.value| >= 4 by { SetsAddresses(sets, tag, list); }
    if items == [] {
      NoneGiven(sets, tag, list);
    } else {
      var n := |items| - 1;
      var init, i := items[..n], items[n];
      assert items == init + [i];
      ValuesOf(init, [i]);
      OneValue(i);
      if Holds(i, tag, list) {
        HoldsValue(i, tag, list);
        LastIs(Values(init), i.opt, sets);
        SetNow(items, tag, list);
      } else {
        LastGives(init, sets, tag, list);
        Unset(Values(init), i, sets);
        SetBefore(init, i, tag, list, LastAddress(Values(init), sets));
      }
    }
  }

  lemma SetsAddresses(sets: Opt -> bool, tag: byte, list: bool)
    requires SetBy(sets, tag, list)
    ensures forall o | sets(o) :: |o.value| >= 4
  {
  }

  lemma HoldsValue(i: Item, tag: byte, list: bool)
    requires Holds(i, tag, list)
    ensures i.Value?
  {
  }

  lemma NoneGiven(sets: Opt -> bool, tag: byte, list: bool)
    requires forall o | sets(o) :: |o.value| >= 4
    ensures LastAddress(Values([]), sets) == None && Gives([], tag, list, None)
  {
  }

  lemma OneValue(i: Item)
    ensures Values([i]) == match i case Filler => [] case Value(o) => [o]
  {
    assert [i][1..] == [];
  }

  lemma LastIs(options: seq<Opt>, o: Opt, sets: Opt -> bool)
    requires (forall o | sets(o) :: |o.value| >= 4) && sets(o)
    ensures LastAddress(options + [o], sets) == Some(Prefix(o.value, 4))
  {
    if |o.value| == 4 { assert o.value[..4] == o.value; }
  }

  // An item that does not set the address leaves what was read before it.
  lemma Unset(options: seq<Opt>, i: Item, sets: Opt -> bool)
    requires (forall o | sets(o) :: |o.value| >= 4) && (i.Value? ==> !sets(i.opt))
    ensures LastAddress(options + (match i case Filler => [] case Value(o) => [o]), sets) == LastAddress(options, sets)
  {
    match i
    case Filler => assert options + [] == options;
    case Value(o) => assert (options + [o])[..|options|] == options;
  }

  lemma SetNow(items: seq<Item>, tag: byte, list: bool)
    requires items != [] && Holds(items[|items| - 1], tag, list)
    ensures items[|items| - 1].Value? && Gives(items, tag, list, Some(Prefix(items[|items| - 1].opt.value, 4)))
  {
    assert LastHolder(items, |items| - 1, tag, list);
  }

  lemma SetBefore(items: seq<Item>, i: Item, tag: byte, list: bool, address: Option<bytes>)
    requires Gives(items, tag, list, address) && !Holds(i, tag, list)
    ensures Gives(items + [i], tag, list, address)
  {
    hide Prefix;
    match address
    case None =>
    case Some(v) =>
      var k: nat :| k < |items| && LastHolder(items, k, tag, list) && v == Prefix(items[k].opt.value, 4);
      var all := items + [i];
      forall j | k < j < |all| ensures !Holds(all[j], tag, list) {
        if j < |items| { assert all[j] == items[j]; }
      }
      assert all[k] == items[k];
      assert LastHolder(all, k, tag, list);
  }

  // A reply whose options are any items in any order gives, for each address, what the last option
  // that holds it says: all of the mask (option 1), the first of the routers (3) and of the name
  // servers (6); without one 255.255.255.0, no gateway and 1.1.1.1.
  lemma LeaseReadsBack(items: seq<Item>, tail: bytes)
    returns (mask: Option<bytes>, gateway: Option<bytes>, dns: Option<bytes>)
    requires (forall i | i in items :: Sendable(i)) && (tail == [] || tail[0] == 255)
    ensures LeaseOf(Options(Encode(items) + tail)) ==
      Lease(if mask == None then [255, 255, 255, 0] else mask.value, gateway,
            if dns == None then [1, 1, 1, 1] else dns.value)
    ensures Gives(items, 1, false, mask) && Gives(items, 3, true, gateway) && Gives(items, 6, true, dns)
  {
    ReadsBack(items, tail);
    SettersHold();
    hide Options, Encode, Gives, LastAddress, Values, Holds;
    LastGives(items, SetsMask, 1, false);
    LastGives(items, SetsRouter, 3, true);
    LastGives(items, SetsDns, 6, true);
    var options := Values(items);
    mask, gateway, dns :=
      LastAddress(options, SetsMask), LastAddress(options, SetsRouter), LastAddress(options, SetsDns);
  }

  lemma SettersHold()
    ensures SetBy(SetsMask, 1, false) && SetBy(SetsRouter, 3, true) && SetBy(SetsDns, 6, true)
  {
  }

  lemma {:induction false} ValuesOf(a: seq<Item>, b: seq<Item>)
    ensures Values(a + b) == Values(a) + Values(b)
  {
    if a == [] {
      assert a + b == b;
    } else {
      assert (a + b)[1..] == a[1..] + b;
      ValuesOf(a[1..], b);
    }
  }

  // A message cut short anywhere loses options from the end and alters none.
  lemma {:induction false} CutKeepsPrefix(s: bytes, n: nat)
    requires n <= |s|
    ensures Options(s[..n]) <= Options(s)
    decreases |s|
  {
    hide Options;
    OptionsStep(s);
    OptionsStep(s[..n]);
    if n > 0 && s[0] != END {
      if s[0] == PAD {
        assert s[..n][1..] == s[1..][..n - 1];
        CutKeepsPrefix(s[1..], n - 1);
      } else if n >= 2 && n >= 2 + s[1] as int {
        var k := 2 + s[1] as int;
        assert s[..n][k..] == s[k..][..n - k] && s[..n][2..k] == s[2..k];
        CutKeepsPrefix(s[k..], n - k);
      }
    }
  }

  lemma OptionsStep(s: bytes)
    ensures Options(s) ==
      if s == [] || s[0] == END then []
      else if s[0] == PAD then Options(s[1..])
      else if |s| < 2 || |s| < 2 + s[1] as int then []
      else [Opt(s[0], s[2..2 + s[1]])] + Options(s[2 + s[1]..])
  {
  }
}
