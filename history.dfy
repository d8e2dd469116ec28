/** The nickname-history store: recording a live rename and importing the
    renames found in the server's audit log. The store is the whole document
    value, taken before and returned after the update. */
module History {
  import opened Changes

  /** `nick if nick else name`: a missing or empty server nickname falls back to
      the account name, so a recorded name is empty only when the account name is. */
  function DisplayName(nick: Option<string>, name: string): (r: string)
    ensures name != "" ==> r != ""
    ensures nick.Some? && nick.value != "" ==> r == nick.value
    ensures nick.None? || nick.value == "" ==> r == name
  {
    if nick.Some? && nick.value != "" then nick.value else name
  }

  /** `on_member_update`: when the server nickname changed, append one fresh record
      to the member's list, creating the list for a member seen for the first time.
      `date` is the current time already formatted "YYYY-MM-DD HH:MM". */
  method OnMemberUpdate(data: Store, userId: MemberId, beforeNick: Option<string>,
                        afterNick: Option<string>, name: string, date: string)
    returns (data': Store)
    ensures beforeNick == afterNick ==> data' == data
    ensures beforeNick != afterNick ==>
      && data'.Keys == data.Keys + {userId}
      && |data'[userId]| == |ListOf(data, userId)| + 1
      && data'[userId][..|ListOf(data, userId)|] == ListOf(data, userId)
      && data'[userId][|ListOf(data, userId)|]
         == FreshChange(DisplayName(beforeNick, name), DisplayName(afterNick, name), date)
    ensures forall u :: u in data && u != userId ==> u in data' && data'[u] == data[u]
    ensures StoreConsistent(data) ==> StoreConsistent(data')
  {
    data' := data;
    if beforeNick != afterNick {
      if userId !in data' {
        data' := data'[userId := []];
      }
      var record := FreshChange(DisplayName(beforeNick, name), DisplayName(afterNick, name), date);
      data' := data'[userId := data'[userId] + [record]];
      assert data'[userId][..|ListOf(data, userId)|] == ListOf(data, userId);
    }
  }

  /** An audit-log member update, with the nicknames already extracted. The
      account name stands in only when a side of the change has no `nick`
      attribute at all; when both sides lack it the names are equal and the
      entry yields no record. */
  datatype AuditEntry = AuditEntry(targetId: MemberId, oldNick: string, newNick: string, date: string)

  /** A record collected from the audit log together with the member it belongs to. */
  datatype Collected = Collected(userId: MemberId, change: Change)

  /** The audit entries that are renames, turned into fresh records, in the order
      the audit-log iterator yields them. */
  function Renames(entries: seq<AuditEntry>): (r: seq<Collected>)
    ensures |r| <= |entries|
    ensures forall k :: 0 <= k < |r| ==>
      r[k].change.oldName != r[k].change.newName && r[k].change.likes == 0 && r[k].change.likedBy == []
  {
    if entries == [] then []
    else
      var e := entries[0];
      (if e.oldNick != e.newNick then [Collected(e.targetId, FreshChange(e.oldNick, e.newNick, e.date))] else [])
      + Renames(entries[1..])
  }

  lemma {:induction false} RenamesAppend(a: seq<AuditEntry>, b: seq<AuditEntry>)
    ensures Renames(a + b) == Renames(a) + Renames(b)
  {
    if a == [] {
      assert a + b == b;
    } else {
      assert (a + b)[0] == a[0] && (a + b)[1..] == a[1..] + b;
      RenamesAppend(a[1..], b);
    }
  }

  /** An entry yields a record exactly when its old and new nickname differ. */
  lemma {:induction false} RenamesKeepsOnlyRenames(entries: seq<AuditEntry>, e: AuditEntry)
    ensures Collected(e.targetId, FreshChange(e.oldNick, e.newNick, e.date)) in Renames(entries)
        <==> e in entries && e.oldNick != e.newNick
  {
    if entries != [] {
      RenamesKeepsOnlyRenames(entries[1..], e);
      assert entries == [entries[0]] + entries[1..];
    }
  }

  /** The `async for entry in guild.audit_logs(...)` loop: keep the entries whose
      nicknames differ. `entries` is what the iterator yields, already limited to
      member targets, in the order it yields them; that order is kept. */
  method CollectRenames(entries: seq<AuditEntry>) returns (collected: seq<Collected>)
    ensures collected == Renames(entries)
  {
    collected := [];
    var i := 0;
    while i < |entries|
      invariant 0 <= i <= |entries|
      invariant collected == Renames(entries[..i])
    {
      var e := entries[i];
      if e.oldNick != e.newNick {
        collected := collected + [Collected(e.targetId, FreshChange(e.oldNick, e.newNick, e.date))];
      }
      RenamesAppend(entries[..i], [e]);
      assert entries[..i + 1] == entries[..i] + [e];
      i := i + 1;
    }
    assert entries[..i] == entries;
  }

  /** The records of `collected` that belong to `id`, in collection order. */
  function OwnedBy(collected: seq<Collected>, id: MemberId): seq<Change>
  {
    if collected == [] then []
    else (if collected[0].userId == id then [collected[0].change] else []) + OwnedBy(collected[1..], id)
  }

  lemma {:induction false} OwnedByAppend(a: seq<Collected>, b: seq<Collected>, id: MemberId)
    ensures OwnedBy(a + b, id) == OwnedBy(a, id) + OwnedBy(b, id)
  {
    if a == [] {
      assert a + b == b;
    } else {
      assert (a + b)[0] == a[0] && (a + b)[1..] == a[1..] + b;
      OwnedByAppend(a[1..], b, id);
    }
  }

  /** The members that own at least one collected record. */
  function Owners(collected: seq<Collected>): set<MemberId>
  {
    if collected == [] then {} else {collected[0].userId} + Owners(collected[1..])
  }

  lemma {:induction false} OwnersAppend(a: seq<Collected>, b: seq<Collected>)
    ensures Owners(a + b) == Owners(a) + Owners(b)
  {
    if a == [] {
      assert a + b == b;
    } else {
      assert (a + b)[0] == a[0] && (a + b)[1..] == a[1..] + b;
      OwnersAppend(a[1..], b);
    }
  }

  /** A member that owns no collected record gets nothing from the import. */
  lemma {:induction false} NotOwnerGetsNothing(collected: seq<Collected>, id: MemberId)
    requires id !in Owners(collected)
    ensures OwnedBy(collected, id) == []
  {
    if collected != [] {
      NotOwnerGetsNothing(collected[1..], id);
    }
  }

  /** One more turn of the merge loop adds its record's owner to the owners. */
  lemma OwnersStep(collected: seq<Collected>, i: nat)
    requires i < |collected|
    ensures Owners(collected[..i + 1]) == Owners(collected[..i]) + {collected[i].userId}
  {
    var c := collected[i];
    assert collected[..i + 1] == collected[..i] + [c];
    assert [c][1..] == [];
    OwnersAppend(collected[..i], [c]);
  }

  /** One more turn of the merge loop adds its record to its owner's records only. */
  lemma OwnedByStep(collected: seq<Collected>, i: nat, u: MemberId)
    requires i < |collected|
    ensures OwnedBy(collected[..i + 1], u)
      == OwnedBy(collected[..i], u) + (if collected[i].userId == u then [collected[i].change] else [])
  {
    var c := collected[i];
    assert collected[..i + 1] == collected[..i] + [c];
    assert [c][1..] == [];
    OwnedByAppend(collected[..i], [c], u);
  }

  /** One turn of the merge loop, seen from one member `u`: if `u`'s list was its old
      list followed by its records so far, it still is once the turn's record has
      been appended to its owner's list. */
  lemma MergeKeepsAt(data: Store, collected: seq<Collected>, i: nat, cur: Store, u: MemberId)
    requires i < |collected|
    requires u in cur ==> cur[u] == ListOf(data, u) + OwnedBy(collected[..i], u)
    requires u !in cur ==> u !in data && u !in Owners(collected[..i])
    ensures (if u == collected[i].userId then ListOf(cur, u) + [collected[i].change] else ListOf(cur, u))
      == ListOf(data, u) + OwnedBy(collected[..i + 1], u)
  {
    OwnedByStep(collected, i, u);
    if u !in cur {
      NotOwnerGetsNothing(collected[..i], u);
    }
  }

  /** One turn of the merge loop keeps the loop's account of the store. */
  lemma MergeKeeps(data: Store, collected: seq<Collected>, i: nat, cur: Store, next: Store)
    requires i < |collected|
    requires cur.Keys == data.Keys + Owners(collected[..i])
    requires forall u :: u in cur ==> cur[u] == ListOf(data, u) + OwnedBy(collected[..i], u)
    requires next == cur[collected[i].userId := ListOf(cur, collected[i].userId) + [collected[i].change]]
    ensures next.Keys == data.Keys + Owners(collected[..i + 1])
    ensures forall u :: u in next ==> next[u] == ListOf(data, u) + OwnedBy(collected[..i + 1], u)
  {
    OwnersStep(collected, i);
    forall u | u in next ensures next[u] == ListOf(data, u) + OwnedBy(collected[..i + 1], u) {
      MergeKeepsAt(data, collected, i, cur, u);
    }
  }

  /** The merge loop of `fetch_audit_nicknames`: every collected record is appended
      to its owner's list in collection order, a missing owner gets a new list, and
      nothing is deduplicated against what the store already holds. */
  method MergeRenames(data: Store, collected: seq<Collected>) returns (data': Store)
    ensures data'.Keys == data.Keys + Owners(collected)
    ensures forall u :: u in data' ==> data'[u] == ListOf(data, u) + OwnedBy(collected, u)
  {
    data' := data;
    var i := 0;
    while i < |collected|
      invariant 0 <= i <= |collected|
      invariant data'.Keys == data.Keys + Owners(collected[..i])
      invariant forall u :: u in data' ==> data'[u] == ListOf(data, u) + OwnedBy(collected[..i], u)
    {
      var change := collected[i];
      var userId := change.userId;
      ghost var before := data';
      if userId !in data' {
        data' := data'[userId := []];
      }
      data' := data'[userId := data'[userId] + [change.change]];
      assert data' == before[userId := ListOf(before, userId) + [change.change]];
      MergeKeeps(data, collected, i, before, data');
      i := i + 1;
    }
    assert collected[..i] == collected;
  }

  /** `fetch_audit_nicknames` from the entries on: collect the renames, then merge. */
  method FetchAuditNicknames(data: Store, entries: seq<AuditEntry>) returns (data': Store)
    ensures data'.Keys == data.Keys + Owners(Renames(entries))
    ensures forall u :: u in data' ==> data'[u] == ListOf(data, u) + OwnedBy(Renames(entries), u)
    ensures StoreConsistent(data) ==> StoreConsistent(data')
  {
    var collected := CollectRenames(entries);
    data' := MergeRenames(data, collected);
    if StoreConsistent(data) {
      forall u | u in data' ensures AllConsistent(data'[u]) {
        OwnedFresh(collected, u);
      }
    }
  }

  /** Records taken from the audit log start consistent: no likes, nobody in `liked_by`. */
  lemma {:induction false} OwnedFresh(collected: seq<Collected>, id: MemberId)
    requires forall k :: 0 <= k < |collected| ==> collected[k].change.likes == 0 && collected[k].change.likedBy == []
    ensures AllConsistent(OwnedBy(collected, id))
  {
    if collected != [] {
      OwnedFresh(collected[1..], id);
      var head := if collected[0].userId == id then [collected[0].change] else [];
      var rest := OwnedBy(collected[1..], id);
      assert OwnedBy(collected, id) == head + rest;
      forall i | 0 <= i < |head + rest| ensures Consistent((head + rest)[i]) {
        if i >= |head| {
          assert (head + rest)[i] == rest[i - |head|];
        }
      }
    }
  }

  /** Running the import twice on the same audit log appends every collected
      record twice: the store does not deduplicate. */
  lemma ReimportDuplicates(data: Store, collected: seq<Collected>, once: Store, twice: Store, u: MemberId)
    requires once.Keys == data.Keys + Owners(collected)
    requires forall v :: v in once ==> once[v] == ListOf(data, v) + OwnedBy(collected, v)
    requires twice.Keys == once.Keys + Owners(collected)
    requires forall v :: v in twice ==> twice[v] == ListOf(once, v) + OwnedBy(collected, v)
    ensures ListOf(twice, u) == ListOf(data, u) + OwnedBy(collected, u) + OwnedBy(collected, u)
  {
    if u !in twice {
      NotOwnerGetsNothing(collected, u);
    }
  }
}
