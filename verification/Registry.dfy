/** src/CommandRegistry.cpp: a bounded table that acts as a case-insensitive map. */
module Registry {
  import opened Text
  import opened Buffers

  const MAX_COMMANDS := 48

  datatype Entry<H> = Entry(name: string, handler: H, help: CString)

  /** Index of the entry whose name matches ignoring case, or the table's length. */
  function IndexOfName<H>(entries: seq<Entry<H>>, name: string): (i: nat)
    ensures i <= |entries|
    ensures i < |entries| ==> Lower(entries[i].name) == Lower(name)
    ensures forall j :: 0 <= j < i ==> Lower(entries[j].name) != Lower(name)
  {
    if entries == [] || Lower(entries[0].name) == Lower(name) then 0
    else 1 + IndexOfName(entries[1..], name)
  }

  lemma IndexOfNameIs<H>(entries: seq<Entry<H>>, name: string, n: nat)
    requires n <= |entries| && (forall j :: 0 <= j < n ==> Lower(entries[j].name) != Lower(name))
    requires n < |entries| ==> Lower(entries[n].name) == Lower(name)
    ensures IndexOfName(entries, name) == n
  {
    var i := IndexOfName(entries, name);
    assert i < |entries| ==> Lower(entries[i].name) == Lower(name);
  }

  function Find<H>(entries: seq<Entry<H>>, name: string): Option<Entry<H>> {
    var i := IndexOfName(entries, name);
    if i < |entries| then Some(entries[i]) else None
  }

  datatype Registered<H> = Registered(entries: seq<Entry<H>>, ok: bool)

  function Register<H>(entries: seq<Entry<H>>, name: string, handler: H, help: CString): Registered<H> {
    var i := IndexOfName(entries, name);
    if |entries| >= MAX_COMMANDS then Registered(entries, false)
    else if i < |entries| then
      Registered(entries[i := entries[i].(handler := handler, help := help)], true)
    else Registered(entries + [Entry(name, handler, help)], true)
  }

  class CommandRegistry<H(0)> {
    const table: array<Entry<H>>
    var count: nat

    ghost predicate Valid()
      reads this, table
    {
      table.Length == MAX_COMMANDS && count <= MAX_COMMANDS
      && forall i :: 0 <= i < count ==> NoNul(table[i].name)
    }

    ghost function Entries(): seq<Entry<H>>
      requires Valid()
      reads this, table
    {
      table[..count]
    }

    constructor ()
      ensures Valid() && Entries() == [] && fresh(table)
    {
      table := new Entry<H>[MAX_COMMANDS];
      count := 0;
    }

    /** A null handler is the source's null function pointer. */
    method RegisterCommand(name: CString, handler: Option<H>, help: CString) returns (ok: bool)
      requires Valid() && (name.Str? ==> NoNul(name.text))
      modifies this, table
      ensures Valid()
      ensures if name.Null? || handler.None? then !ok && Entries() == old(Entries())
              else Registered(Entries(), ok) == Register(old(Entries()), name.text, handler.value, help)
    {
      if name.Null? || handler.None? || count >= MAX_COMMANDS {
        return false;
      }
      ghost var before := Entries();
      for i := 0 to count
        invariant Valid() && count == old(count) && Entries() == before
        invariant forall j :: 0 <= j < i ==> Lower(before[j].name) != Lower(name.text)
      {
        var same := Ieq(Str(table[i].name), name);
        assert before[i] == table[i];
        if same {
          IndexOfNameIs(before, name.text, i);
          hide IndexOfName;
          table[i] := table[i].(handler := handler.value, help := help);
          assert Entries() == before[i := table[i]];
          return true;
        }
      }
      IndexOfNameIs(before, name.text, |before|);
      hide IndexOfName;
      table[count] := Entry(name.text, handler.value, help);
      count := count + 1;
      assert Entries() == before + [table[count - 1]];
      return true;
    }

    method FindCommand(name: CString) returns (entry: Option<Entry<H>>)
      requires Valid() && (name.Str? ==> NoNul(name.text))
      ensures entry == if name.Null? then None else Find(Entries(), name.text)
    {
      if name.Null? {
        return None;
      }
      for i := 0 to count
        invariant forall j :: 0 <= j < i ==> Lower(Entries()[j].name) != Lower(name.text)
      {
        var same := Ieq(Str(table[i].name), name);
        if same {
          IndexOfNameIs(Entries(), name.text, i);
          return Some(table[i]);
        }
      }
      IndexOfNameIs(Entries(), name.text, |Entries()|);
      return None;
    }
  }

  // ----- refinement of a bounded, lowercase-keyed map -------------------------

  datatype Call<H> = Call(name: string, handler: H, help: CString)

  datatype Slot<H> = Slot(handler: H, help: CString)

  function RunTable<H>(calls: seq<Call<H>>): seq<Entry<H>> {
    if calls == [] then []
    else
      var c := calls[|calls| - 1];
      Register(RunTable(calls[..|calls| - 1]), c.name, c.handler, c.help).entries
  }

  /** The abstract machine: a map that refuses every call once it holds 48 keys. */
  function RunMap<H>(calls: seq<Call<H>>): map<string, Slot<H>> {
    if calls == [] then map[]
    else
      var c, m := calls[|calls| - 1], RunMap(calls[..|calls| - 1]);
      if |m| >= 48 then m else m[Lower(c.name) := Slot(c.handler, c.help)]
  }

  ghost predicate Distinct<H>(entries: seq<Entry<H>>) {
    forall i, j :: 0 <= i < j < |entries| ==> Lower(entries[i].name) != Lower(entries[j].name)
  }

  function Keys<H>(entries: seq<Entry<H>>): (keys: set<string>)
    ensures forall i :: 0 <= i < |entries| ==> Lower(entries[i].name) in keys
    ensures forall k :: k in keys ==> exists i :: 0 <= i < |entries| && Lower(entries[i].name) == k
  {
    if entries == [] then {}
    else
      var last := entries[|entries| - 1];
      var keys := Keys(entries[..|entries| - 1]) + {Lower(last.name)};
      assert forall i :: 0 <= i < |entries| - 1 ==> entries[i] == entries[..|entries| - 1][i];
      keys
  }

  lemma {:induction false} KeyCount<H>(entries: seq<Entry<H>>)
    requires Distinct(entries)
    ensures |Keys(entries)| == |entries|
  {
    if entries != [] {
      var front := entries[..|entries| - 1];
      KeyCount(front);
      assert Lower(entries[|entries| - 1].name) !in Keys(front);
    }
  }

  ghost predicate Represents<H>(entries: seq<Entry<H>>, m: map<string, Slot<H>>) {
    && Distinct(entries) && m.Keys == Keys(entries)
    && forall i :: 0 <= i < |entries| ==> m[Lower(entries[i].name)] == Slot(entries[i].handler, entries[i].help)
  }

  lemma KeysOfSameNames<H>(a: seq<Entry<H>>, b: seq<Entry<H>>)
    requires |a| == |b| && forall i :: 0 <= i < |a| ==> a[i].name == b[i].name
    ensures Keys(a) == Keys(b)
  {
    if a != [] {
      KeysOfSameNames(a[..|a| - 1], b[..|b| - 1]);
    }
  }

  lemma KeysOfAppend<H>(entries: seq<Entry<H>>, e: Entry<H>)
    ensures Keys(entries + [e]) == Keys(entries) + {Lower(e.name)}
  {
    assert (entries + [e])[..|entries|] == entries;
  }

  lemma UpdateRepresents<H>(entries: seq<Entry<H>>, m: map<string, Slot<H>>, i: nat, s: Slot<H>)
    requires Represents(entries, m) && i < |entries|
    ensures Represents(entries[i := entries[i].(handler := s.handler, help := s.help)], m[Lower(entries[i].name) := s])
  {
    hide Lower, Keys;
    KeysOfSameNames(entries, entries[i := entries[i].(handler := s.handler, help := s.help)]);
  }

  lemma DistinctAppend<H>(entries: seq<Entry<H>>, e: Entry<H>)
    requires Distinct(entries) && IndexOfName(entries, e.name) == |entries|
    ensures Distinct(entries + [e]) && Lower(e.name) !in Keys(entries)
  {
    hide Lower, IndexOfName, Keys;
  }

  lemma SlotsAppend<H>(entries: seq<Entry<H>>, m: map<string, Slot<H>>, e: Entry<H>, k: string)
    requires m.Keys == Keys(entries) && k !in m && k == Lower(e.name)
    requires forall i :: 0 <= i < |entries| ==> m[Lower(entries[i].name)] == Slot(entries[i].handler, entries[i].help)
    ensures var all, n := entries + [e], m[k := Slot(e.handler, e.help)];
            && (forall i :: 0 <= i < |all| ==> Lower(all[i].name) in n)
            && forall i :: 0 <= i < |all| ==> n[Lower(all[i].name)] == Slot(all[i].handler, all[i].help)
  {
    hide Lower, Keys, Distinct;
  }

  lemma AppendRepresents<H>(entries: seq<Entry<H>>, m: map<string, Slot<H>>, e: Entry<H>)
    requires Represents(entries, m) && IndexOfName(entries, e.name) == |entries|
    ensures Represents(entries + [e], m[Lower(e.name) := Slot(e.handler, e.help)])
  {
    hide Lower, IndexOfName, Keys, Distinct;
    KeysOfAppend(entries, e);
    DistinctAppend(entries, e);
    SlotsAppend(entries, m, e, Lower(e.name));
  }

  lemma RegisterRepresents<H>(entries: seq<Entry<H>>, m: map<string, Slot<H>>, c: Call<H>)
    requires Represents(entries, m) && |entries| < MAX_COMMANDS
    ensures Represents(Register(entries, c.name, c.handler, c.help).entries,
                       m[Lower(c.name) := Slot(c.handler, c.help)])
  {
    hide Lower, IndexOfName, Represents;
    var i := IndexOfName(entries, c.name);
    if i < |entries| {
      UpdateRepresents(entries, m, i, Slot(c.handler, c.help));
    } else {
      AppendRepresents(entries, m, Entry(c.name, c.handler, c.help));
    }
  }

  /** After any calls the table is the map: same keys, same slots, no two names alike. */
  lemma {:induction false} TableIsMap<H>(calls: seq<Call<H>>)
    ensures Represents(RunTable(calls), RunMap(calls))
    ensures |RunTable(calls)| == |RunMap(calls)| <= 48
  {
    if calls == [] {
      assert Represents<H>([], map[]);
    } else {
      var front, c := calls[..|calls| - 1], calls[|calls| - 1];
      TableIsMap(front);
      if |RunTable(front)| < MAX_COMMANDS {
        RegisterRepresents(RunTable(front), RunMap(front), c);
      }
      KeyCount(RunTable(calls));
      assert |RunMap(calls)| == |RunMap(calls).Keys|;
    }
  }

  /** find is lookup in the lowercase-keyed map, for every name and after any calls. */
  lemma FindIsLookup<H>(calls: seq<Call<H>>, name: string)
    ensures var m := RunMap(calls);
            match Find(RunTable(calls), name)
            case None => Lower(name) !in m
            case Some(e) =>
              Lower(name) in m && m[Lower(name)] == Slot(e.handler, e.help) && Lower(e.name) == Lower(name)
  {
    TableIsMap(calls);
  }

  /** No call reorders or renames what is there, and a full table refuses even a known name. */
  lemma OrderIsKept<H>(entries: seq<Entry<H>>, c: Call<H>)
    ensures var r := Register(entries, c.name, c.handler, c.help);
            && |entries| <= |r.entries| <= |entries| + 1
            && (forall i :: 0 <= i < |entries| ==> r.entries[i].name == entries[i].name)
            && (|entries| >= 48 <==> !r.ok)
            && (!r.ok ==> r.entries == entries)
            && (r.ok ==> Find(r.entries, c.name).Some? && Find(r.entries, c.name).value.handler == c.handler)
            && (forall other :: Lower(other) != Lower(c.name) ==> Find(r.entries, other) == Find(entries, other))
  {
    var r := Register(entries, c.name, c.handler, c.help);
    var i := IndexOfName(entries, c.name);
    if r.ok {
      assert forall j :: 0 <= j < |entries| ==> r.entries[j].name == entries[j].name;
      IndexOfNameIs(r.entries, c.name, i);
      forall other | Lower(other) != Lower(c.name) ensures Find(r.entries, other) == Find(entries, other) {
        var k := IndexOfName(entries, other);
        if k < |entries| {
          IndexOfNameIs(r.entries, other, k);
        } else {
          IndexOfNameIs(r.entries, other, |r.entries|);
        }
      }
    }
  }
}
