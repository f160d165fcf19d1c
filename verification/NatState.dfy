/** The connection-tracking table updated in place, each method proved against NatTable. */
module NatState {
  import opened Wire
  import opened T = NatTable

  class Conntrack {
    const slots: array<Entry>
    var cursor: U16
    var natOut: U32
    var natIn: U32
    var natNew: U32
    var natEvict: U32
    var natDrop: U32
    var natLive: U32

    ghost predicate Valid()
      reads this
    {
      slots.Length == CT_CAP
    }

    ghost function State(): Table
      reads this, slots
    {
      Table(slots[..], cursor, natOut, natIn, natNew, natEvict, natDrop, natLive)
    }

    constructor ()
      ensures Valid() && fresh(slots)
      ensures State() == INITIAL
    {
      slots := new Entry[CT_CAP](_ => EMPTY);
      cursor := NAT_LO;
      natOut, natIn, natNew, natEvict, natDrop, natLive := 0, 0, 0, 0, 0, 0;
      new;
      assert slots[..] == Blank(CT_CAP);
    }

    /** `iter().position`: first slot the query hits. */
    method Position(q: Query) returns (i: nat)
      ensures i == First(slots[..], q)
    {
      i := 0;
      while i < slots.Length && !Hit(q, slots[i])
        invariant 0 <= i <= slots.Length
        invariant forall j :: 0 <= j < i ==> !Hit(q, slots[j])
      {
        i := i + 1;
      }
      FirstIs(slots[..], q, i);
    }

    /** The first id from the cursor on that no live flow holds; the cursor ends just past it. */
    method AllocId() returns (r: Option<U16>)
      modifies this`cursor
      ensures (r, cursor) == Probe(slots[..], old(cursor), SPAN)
    {
      var left := SPAN;
      while left > 0
        invariant 0 <= left <= SPAN
        invariant Probe(slots[..], cursor, left) == Probe(slots[..], old(cursor), SPAN)
      {
        var id := cursor;
        cursor := Next(cursor);
        var at := Position(HasId(id));
        if at == slots.Length {
          return Some(id);
        }
        left := left - 1;
      }
      r := None;
    }

    method ChooseSlot(now: nat) returns (i: nat)
      requires Valid()
      ensures i == PickSlot(slots[..], now) && Expendable(slots[..], i, now)
    {
      PicksExpendable(slots[..], now);
      i := Position(Unused);
      if i < slots.Length {
        return;
      }
      i := Position(Expired(now));
      if i < slots.Length {
        return;
      }
      i := 0;
      for n := 1 to CT_CAP
        invariant i == Oldest(slots[..], n)
      {
        if slots[n].lastSeen < slots[i].lastSeen {
          i := n;
        }
      }
    }

    method Insert(t: Tuple, w: U16, flags: Byte, now: nat)
      requires Valid()
      modifies this, slots
      ensures Valid()
      ensures State() == T.Insert(old(State()), t, w, flags, now)
    {
      var idx := ChooseSlot(now);
      if !slots[idx].used {
        natLive := Inc(natLive);
      } else {
        natEvict := Inc(natEvict);
      }
      slots[idx] := Entry(true, t, w, now, NextTcpState(New, flags));
      natNew := Inc(natNew);
      natOut := Inc(natOut);
      assert slots[..] == old(slots[..])[idx := slots[idx]];
    }

    method Outbound(t: Tuple, flags: Byte, now: nat) returns (r: Option<U16>)
      requires Valid()
      modifies this, slots
      ensures Valid()
      ensures r == T.Outbound(old(State()), t, flags, now).1
      ensures State() == T.Outbound(old(State()), t, flags, now).0
    {
      var i := Position(OutKey(t));
      if i < slots.Length {
        r := Some(slots[i].wanId);
        slots[i] := Touched(slots[i], flags, now);
        natOut := Inc(natOut);
        assert slots[..] == old(slots[..])[i := slots[i]];
        return;
      }
      var id := AllocId();
      if id.None? {
        natDrop := Inc(natDrop);
        return None;
      }
      Insert(t, id.value, flags, now);
      r := id;
    }

    method Inbound(proto: Proto, remoteIp: Ip, remoteId: U16, wanId: U16, flags: Byte, now: nat)
      returns (r: Option<(Ip, U16)>)
      requires Valid()
      modifies this, slots
      ensures Valid()
      ensures r == T.Inbound(old(State()), proto, remoteIp, remoteId, wanId, flags, now).1
      ensures State() == T.Inbound(old(State()), proto, remoteIp, remoteId, wanId, flags, now).0
    {
      var i := Position(InKey(proto, remoteIp, remoteId, wanId, now));
      if i < slots.Length {
        r := Some((slots[i].key.srcIp, slots[i].key.srcId));
        slots[i] := Touched(slots[i], flags, now);
        natIn := Inc(natIn);
        assert slots[..] == old(slots[..])[i := slots[i]];
      } else {
        r := None;
      }
    }

    method Reap(now: nat)
      requires Valid()
      modifies this, slots
      ensures Valid()
      ensures State() == T.Reap(old(State()), now)
    {
      for n := 0 to slots.Length
        invariant State() == ReapUpTo(old(State()), n, now)
      {
        if slots[n].used && slots[n].Stale(now) {
          slots[n] := slots[n].(used := false);
          natLive := Dec(natLive);
          natEvict := Inc(natEvict);
          assert slots[..] == ReapUpTo(old(State()), n, now).slots[n := slots[n]];
        }
      }
    }
  }
}
