/** The subscription registry of the J2ME client: the `subscriptions`
    vector of ChannelStatus records, as a sequence of values. Each function
    here is what one of the client's loops over the vector does to it. */
module Registry {
  import opened Wrappers
  import opened Texts

  /** One ChannelStatus record. */
  datatype Entry = Entry(channel: Text, connected: bool, first: bool)

  type Table = seq<Entry>

  predicate Tracked(reg: Table, ch: Text)
  {
    exists i :: 0 <= i < |reg| && reg[i].channel == ch
  }

  /** The channel has an entry that unsubscribe switched off. */
  predicate Halted(reg: Table, ch: Text)
  {
    exists i :: 0 <= i < |reg| && reg[i].channel == ch && !reg[i].connected
  }

  predicate NoDuplicates(reg: Table)
  {
    forall i, j :: 0 <= i < j < |reg| ==> reg[i].channel != reg[j].channel
  }

  predicate SameChannels(a: Table, b: Table)
  {
    |a| == |b| && forall i :: 0 <= i < |a| ==> a[i].channel == b[i].channel
  }

  // ---------------------------------------------------------------------
  // _subscribe

  /** The registry after _subscribe, and whether the channel was already
      there. A missing or empty vector is replaced by a new one holding the
      channel; otherwise an untracked channel gets a new entry at the end
      (connected, not yet welcomed) and a tracked one changes nothing. */
  function Subscribed(reg: Option<Table>, ch: Text): (r: (Table, bool))
    ensures r.1 <==> reg.Some? && Tracked(reg.value, ch)
    ensures r.1 ==> r.0 == reg.value
    ensures !r.1 ==> r.0 == (if reg.Some? then reg.value else []) + [Entry(ch, true, false)]
  {
    if reg.Some? && |reg.value| > 0 then
      if Tracked(reg.value, ch) then (reg.value, true)
      else (reg.value + [Entry(ch, true, false)], false)
    else ([Entry(ch, true, false)], false)
  }

  /** Whatever the registry held, _subscribe leaves the channel tracked and
      adds no second entry for any name. */
  lemma SubscribedKeepsNamesUnique(reg: Option<Table>, ch: Text)
    requires reg.Some? ==> NoDuplicates(reg.value)
    ensures NoDuplicates(Subscribed(reg, ch).0)
    ensures Tracked(Subscribed(reg, ch).0, ch)
  {
    var (r, present) := Subscribed(reg, ch);
    if !present {
      var before := if reg.Some? then reg.value else [];
      assert r == before + [Entry(ch, true, false)];
      assert r[|r| - 1].channel == ch;
      forall i | 0 <= i < |before| ensures before[i].channel != ch {
        assert before[i].channel != ch || Tracked(before, ch);
      }
    }
  }

  // ---------------------------------------------------------------------
  // unsubscribe

  /** k is the first entry of `ch` that is still connected. */
  predicate FirstLive(reg: Table, ch: Text, k: int)
  {
    0 <= k < |reg| && reg[k].channel == ch && reg[k].connected &&
    forall j :: 0 <= j < k ==> !(reg[j].channel == ch && reg[j].connected)
  }

  predicate HasLive(reg: Table, ch: Text)
  {
    exists k :: 0 <= k < |reg| && reg[k].channel == ch && reg[k].connected
  }

  /** The index of the first connected entry of `ch`, -1 when there is none. */
  function LiveIndex(reg: Table, ch: Text): (k: int)
    ensures -1 <= k < |reg|
    ensures k >= 0 ==> FirstLive(reg, ch, k)
    ensures k < 0 <==> !HasLive(reg, ch)
  {
    if reg == [] then -1
    else if reg[0].channel == ch && reg[0].connected then 0
    else
      var j := LiveIndex(reg[1..], ch);
      assert forall i :: 1 <= i < |reg| ==> reg[i] == reg[1..][i - 1];
      if j < 0 then -1 else j + 1
  }

  /** unsubscribe: the first connected entry of the channel is switched off
      (connected and first cleared); nothing else changes. */
  function Unsubscribed(reg: Table, ch: Text): (r: Table)
    ensures HasLive(reg, ch) ==> exists k :: FirstLive(reg, ch, k) && r == reg[k := Entry(ch, false, false)]
    ensures !HasLive(reg, ch) ==> r == reg
  {
    var k := LiveIndex(reg, ch);
    if k >= 0 then reg[k := Entry(ch, false, false)] else reg
  }

  lemma FirstLiveUnique(reg: Table, ch: Text, k: int)
    requires FirstLive(reg, ch, k)
    ensures forall j :: FirstLive(reg, ch, j) ==> j == k
  {
  }

  /** After unsubscribe the channel is halted if it had a live entry, and
      the set of names is untouched. */
  lemma UnsubscribeHalts(reg: Table, ch: Text)
    ensures SameChannels(Unsubscribed(reg, ch), reg)
    ensures HasLive(reg, ch) ==> Halted(Unsubscribed(reg, ch), ch)
    ensures NoDuplicates(reg) ==> NoDuplicates(Unsubscribed(reg, ch))
  {
    var r := Unsubscribed(reg, ch);
    if HasLive(reg, ch) {
      var k :| FirstLive(reg, ch, k) && r == reg[k := Entry(ch, false, false)];
      assert r[k].channel == ch && !r[k].connected;
    }
  }

  // ---------------------------------------------------------------------
  // The connect-once step of a healthy subscribe response

  /** k is the first entry of `ch` not yet welcomed. */
  predicate FirstUnwelcomed(reg: Table, ch: Text, k: int)
  {
    0 <= k < |reg| && reg[k].channel == ch && !reg[k].first &&
    forall j :: 0 <= j < k ==> !(reg[j].channel == ch && !reg[j].first)
  }

  predicate HasUnwelcomed(reg: Table, ch: Text)
  {
    exists k :: 0 <= k < |reg| && reg[k].channel == ch && !reg[k].first
  }

  lemma FirstUnwelcomedUnique(reg: Table, ch: Text, k: int)
    requires FirstUnwelcomed(reg, ch, k)
    ensures forall j :: FirstUnwelcomed(reg, ch, j) ==> j == k
  {
  }

  /** The index of the first entry of `ch` not yet welcomed, -1 when there
      is none. */
  function UnwelcomedIndex(reg: Table, ch: Text): (k: int)
    ensures -1 <= k < |reg|
    ensures k >= 0 ==> FirstUnwelcomed(reg, ch, k)
    ensures k < 0 <==> !HasUnwelcomed(reg, ch)
  {
    if reg == [] then -1
    else if reg[0].channel == ch && !reg[0].first then 0
    else
      var j := UnwelcomedIndex(reg[1..], ch);
      assert forall i :: 1 <= i < |reg| ==> reg[i] == reg[1..][i - 1];
      if j < 0 then -1 else j + 1
  }

  /** The first entry of the channel whose `first` flag is clear gets it
      set, and the connect callback is due (second component) exactly then. */
  function Welcomed(reg: Table, ch: Text): (r: (Table, bool))
    ensures r.1 <==> HasUnwelcomed(reg, ch)
    ensures r.1 ==> exists k :: FirstUnwelcomed(reg, ch, k) && r.0 == reg[k := reg[k].(first := true)]
    ensures !r.1 ==> r.0 == reg
  {
    var k := UnwelcomedIndex(reg, ch);
    if k >= 0 then (reg[k := reg[k].(first := true)], true) else (reg, false)
  }

  /** With one entry per name, a second healthy response does not connect
      again: the connect callback fires at most once until unsubscribe
      clears the flag. */
  lemma {:induction false} WelcomeOnce(reg: Table, ch: Text)
    requires NoDuplicates(reg)
    ensures !Welcomed(Welcomed(reg, ch).0, ch).1
    ensures SameChannels(Welcomed(reg, ch).0, reg)
    ensures NoDuplicates(Welcomed(reg, ch).0)
  {
    var (r, fired) := Welcomed(reg, ch);
    if fired {
      var k :| FirstUnwelcomed(reg, ch, k) && r == reg[k := reg[k].(first := true)];
      forall j | 0 <= j < |r| && j != k ensures r[j].channel != ch {
        assert r[j] == reg[j];
      }
    }
  }

  // ---------------------------------------------------------------------
  // The removal loop of the drop path

  /** The entries not of `ch`, in order. */
  function Without(reg: Table, ch: Text): (r: Table)
    ensures forall i :: 0 <= i < |r| ==> r[i].channel != ch
    ensures |r| <= |reg|
  {
    if reg == [] then []
    else if reg[0].channel == ch then Without(reg[1..], ch)
    else [reg[0]] + Without(reg[1..], ch)
  }

  function Count(reg: Table, ch: Text): nat
  {
    if reg == [] then 0 else (if reg[0].channel == ch then 1 else 0) + Count(reg[1..], ch)
  }

  /** The loop as written, from index i: an entry of `ch` is removed (which
      shifts its successor into slot i) and i still advances, so the entry
      right after a removed one is not examined. The second component counts
      the removals, one disconnect callback each; every removal shortens the
      vector by one. */
  function SweepFrom(reg: Table, ch: Text, i: nat): (r: (Table, nat))
    ensures |r.0| + r.1 == |reg|
    decreases |reg| - i
  {
    if i >= |reg| then (reg, 0)
    else if reg[i].channel == ch then
      var (r, n) := SweepFrom(reg[..i] + reg[i + 1..], ch, i + 1);
      (r, n + 1)
    else SweepFrom(reg, ch, i + 1)
  }

  /** The entries before i are never touched, and something is removed
      exactly when an entry of `ch` sits at i or later: the first such
      entry is always reached. */
  lemma {:induction false} SweepFromKeepsPrefix(reg: Table, ch: Text, i: nat)
    ensures var m := if i < |reg| then i else |reg|;
      |SweepFrom(reg, ch, i).0| >= m && SweepFrom(reg, ch, i).0[..m] == reg[..m]
    ensures SweepFrom(reg, ch, i).1 > 0 <==> exists j :: i <= j < |reg| && reg[j].channel == ch
    decreases |reg| - i
  {
    if i < |reg| {
      if reg[i].channel == ch {
        var shorter := reg[..i] + reg[i + 1..];
        SweepFromKeepsPrefix(shorter, ch, i + 1);
        var after := SweepFrom(shorter, ch, i + 1).0;
        assert after[..i] == after[..if i + 1 < |shorter| then i + 1 else |shorter|][..i];
      } else {
        SweepFromKeepsPrefix(reg, ch, i + 1);
        var after := SweepFrom(reg, ch, i + 1).0;
        assert after[..i] == after[..i + 1][..i];
      }
    }
  }

  /** One turn of the sweep at an entry of `ch`: the entry goes, and the
      count grows by one. */
  lemma SweepDropsAt(reg: Table, ch: Text, i: nat)
    requires i < |reg| && reg[i].channel == ch
    ensures var after := SweepFrom(reg[..i] + reg[i + 1..], ch, i + 1);
      SweepFrom(reg, ch, i) == (after.0, after.1 + 1)
  {
  }

  /** One turn of the sweep at an entry of another channel. */
  lemma SweepSkips(reg: Table, ch: Text, i: nat)
    requires i < |reg| && reg[i].channel != ch
    ensures SweepFrom(reg, ch, i) == SweepFrom(reg, ch, i + 1)
  {
  }

  /** The removal loop over the whole vector: it fires at least one
      disconnect exactly when the channel is tracked. */
  function Sweep(reg: Table, ch: Text): (r: (Table, nat))
    ensures |r.0| + r.1 == |reg|
  {
    SweepFrom(reg, ch, 0)
  }

  /** The sweep fires at least one disconnect exactly when the channel is
      tracked. */
  lemma SweepFiresWhenTracked(reg: Table, ch: Text)
    ensures Sweep(reg, ch).1 > 0 <==> Tracked(reg, ch)
  {
    SweepFromKeepsPrefix(reg, ch, 0);
  }

  lemma WithoutTail(reg: Table, ch: Text, i: nat)
    requires i < |reg|
    ensures Without(reg[i..], ch) == (if reg[i].channel == ch then [] else [reg[i]]) + Without(reg[i + 1..], ch)
    ensures Count(reg[i..], ch) == (if reg[i].channel == ch then 1 else 0) + Count(reg[i + 1..], ch)
  {
    assert reg[i..][1..] == reg[i + 1..];
  }

  lemma RemoveKeepsUnique(reg: Table, i: nat)
    requires NoDuplicates(reg) && i < |reg|
    ensures NoDuplicates(reg[..i] + reg[i + 1..])
  {
    var reg' := reg[..i] + reg[i + 1..];
    forall a, b | 0 <= a < b < |reg'| ensures reg'[a].channel != reg'[b].channel {
      var a0 := if a < i then a else a + 1;
      var b0 := if b < i then b else b + 1;
      assert reg'[a] == reg[a0] && reg'[b] == reg[b0];
    }
  }

  lemma Regroup3(a: Table, b: Table, c: Table)
    ensures (a + b) + c == a + (b + c)
  {
  }

  /** The removal step: when reg[i] is of `ch`, what the sweep computes from
      i + 1 on the shortened table is what Without and Count say of reg[i..]. */
  lemma SweepRemoveStep(reg: Table, ch: Text, i: nat, tail: (Table, nat))
    requires NoDuplicates(reg) && i + 1 < |reg| && reg[i].channel == ch
    requires var reg' := reg[..i] + reg[i + 1..];
      tail == (reg'[..i + 1] + Without(reg'[i + 1..], ch), Count(reg'[i + 1..], ch))
    ensures (tail.0, tail.1 + 1) == (reg[..i] + Without(reg[i..], ch), Count(reg[i..], ch))
  {
    var reg' := reg[..i] + reg[i + 1..];
    WithoutTail(reg, ch, i);
    WithoutTail(reg, ch, i + 1);
    assert reg'[..i + 1] == reg[..i] + [reg[i + 1]];
    assert reg'[i + 1..] == reg[i + 2..];
    assert reg[i + 1].channel != ch;
    var w := Without(reg[i + 2..], ch);
    assert Without(reg[i..], ch) == [reg[i + 1]] + w;
    assert tail.0 == (reg[..i] + [reg[i + 1]]) + w;
    Regroup3(reg[..i], [reg[i + 1]], w);
  }

  /** The sweep past the end of the table. */
  lemma SweepEnd(reg: Table, ch: Text)
    ensures (reg, 0) == (reg[..|reg|] + Without(reg[|reg|..], ch), Count(reg[|reg|..], ch))
  {
    assert reg[..|reg|] == reg && reg[|reg|..] == [];
    assert reg[..|reg|] + [] == reg;
  }

  /** Removing the last entry, which is of `ch`. */
  lemma SweepLastStep(reg: Table, ch: Text, i: nat)
    requires i + 1 == |reg| && reg[i].channel == ch
    ensures (reg[..i] + reg[i + 1..], 1) == (reg[..i] + Without(reg[i..], ch), Count(reg[i..], ch))
  {
    WithoutTail(reg, ch, i);
    assert reg[i + 1..] == [];
    assert reg[..i] + [] == reg[..i];
  }

  /** Passing over an entry of another channel. */
  lemma SweepKeepStep(reg: Table, ch: Text, i: nat, tail: (Table, nat))
    requires i < |reg| && reg[i].channel != ch
    requires tail == (reg[..i + 1] + Without(reg[i + 1..], ch), Count(reg[i + 1..], ch))
    ensures tail == (reg[..i] + Without(reg[i..], ch), Count(reg[i..], ch))
  {
    WithoutTail(reg, ch, i);
    var w := Without(reg[i + 1..], ch);
    assert reg[..i + 1] == reg[..i] + [reg[i]];
    Regroup3(reg[..i], [reg[i]], w);
  }

  lemma {:induction false} SweepFromNoDup(reg: Table, ch: Text, i: nat)
    requires NoDuplicates(reg) && i <= |reg|
    ensures SweepFrom(reg, ch, i) == (reg[..i] + Without(reg[i..], ch), Count(reg[i..], ch))
    decreases |reg| - i
  {
    if i == |reg| {
      SweepEnd(reg, ch);
    } else if reg[i].channel == ch {
      var reg' := reg[..i] + reg[i + 1..];
      if i + 1 == |reg| {
        assert SweepFrom(reg', ch, i + 1) == (reg', 0);
        SweepLastStep(reg, ch, i);
      } else {
        RemoveKeepsUnique(reg, i);
        SweepFromNoDup(reg', ch, i + 1);
        SweepRemoveStep(reg, ch, i, SweepFrom(reg', ch, i + 1));
      }
    } else {
      SweepFromNoDup(reg, ch, i + 1);
      SweepKeepStep(reg, ch, i, SweepFrom(reg, ch, i + 1));
    }
  }

  /** With one entry per name the sweep does what it means to: the entry
      of the channel is gone, everything else stays in order, and exactly
      one disconnect is due when the channel was tracked. */
  lemma SweepRemovesChannel(reg: Table, ch: Text)
    requires NoDuplicates(reg)
    ensures Sweep(reg, ch).0 == Without(reg, ch)
    ensures !Tracked(Sweep(reg, ch).0, ch)
    ensures Sweep(reg, ch).1 == (if Tracked(reg, ch) then 1 else 0)
    ensures NoDuplicates(Sweep(reg, ch).0)
  {
    SweepFromNoDup(reg, ch, 0);
    assert reg[..0] == [] && reg[0..] == reg;
    CountOfUnique(reg, ch);
    WithoutKeepsUnique(reg, ch);
  }

  lemma {:induction false} CountOfUnique(reg: Table, ch: Text)
    requires NoDuplicates(reg)
    ensures Count(reg, ch) == (if Tracked(reg, ch) then 1 else 0)
  {
    if reg != [] {
      CountOfUnique(reg[1..], ch);
      if reg[0].channel == ch {
        assert !Tracked(reg[1..], ch) by {
          forall k | 0 <= k < |reg[1..]| ensures reg[1..][k].channel != ch {
            assert reg[1..][k] == reg[k + 1];
          }
        }
      } else {
        assert Tracked(reg, ch) <==> Tracked(reg[1..], ch) by {
          forall k | 1 <= k < |reg| ensures reg[1..][k - 1] == reg[k] {}
        }
      }
    }
  }

  /** Without keeps a subsequence, so it keeps names unique. */
  lemma {:induction false} WithoutKeepsUnique(reg: Table, ch: Text)
    requires NoDuplicates(reg)
    ensures NoDuplicates(Without(reg, ch))
    ensures forall e :: e in Without(reg, ch) ==> e in reg
  {
    if reg != [] {
      WithoutKeepsUnique(reg[1..], ch);
      var w := Without(reg[1..], ch);
      if reg[0].channel != ch {
        forall j | 0 <= j < |w| ensures w[j].channel != reg[0].channel {
          assert w[j] in reg[1..];
          var k :| 0 <= k < |reg[1..]| && reg[1..][k] == w[j];
          assert reg[k + 1] == w[j];
        }
        assert NoDuplicates([reg[0]] + w) by {
          var r := [reg[0]] + w;
          forall a, b | 0 <= a < b < |r| ensures r[a].channel != r[b].channel {
            if a == 0 { assert r[b] == w[b - 1]; } else { assert r[a] == w[a - 1] && r[b] == w[b - 1]; }
          }
        }
      }
    }
  }

  /** Two adjacent entries of one name are not both removed: when the
      first entry of the channel is at i and the next one at i + 1, the
      sweep removes the one at i and the other slides into slot i, where it
      stays. This is why the sweep relies on names being unique. */
  lemma SweepSkipsNeighbour(reg: Table, ch: Text, i: nat)
    requires i + 1 < |reg| && reg[i].channel == ch && reg[i + 1].channel == ch
    requires forall j :: 0 <= j < i ==> reg[j].channel != ch
    ensures i < |Sweep(reg, ch).0| && Sweep(reg, ch).0[i] == reg[i + 1]
    ensures Tracked(Sweep(reg, ch).0, ch)
  {
    SweepSkipsPrefix(reg, ch, 0, i);
    SweepDropsAt(reg, ch, i);
    var shorter := reg[..i] + reg[i + 1..];
    SweepFromKeepsPrefix(shorter, ch, i + 1);
    var after := SweepFrom(shorter, ch, i + 1).0;
    assert after[..i + 1][i] == shorter[i] == reg[i + 1];
  }

  /** Entries of other channels from j up to i are passed over. */
  lemma {:induction false} SweepSkipsPrefix(reg: Table, ch: Text, j: nat, i: nat)
    requires j <= i < |reg|
    requires forall k :: j <= k < i ==> reg[k].channel != ch
    ensures SweepFrom(reg, ch, j) == SweepFrom(reg, ch, i)
    decreases i - j
  {
    if j < i {
      SweepSkips(reg, ch, j);
      SweepSkipsPrefix(reg, ch, j + 1, i);
    }
  }
}
