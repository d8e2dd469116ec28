/** Change records of the nickname history and the like toggle on one record. */
module Changes {

  /** The string form of a member's numeric id, as the persisted document keys it. */
  type MemberId = string

  /** One observed rename. `date` is the "YYYY-MM-DD HH:MM" string the bot stores;
      `likes` is the counter the document stores beside `likedBy`. */
  datatype Change = Change(oldName: string, newName: string, date: string, likes: int, likedBy: seq<MemberId>)

  /** The whole persisted document: member id to that member's change list. */
  type Store = map<MemberId, seq<Change>>

  datatype Option<T> = None | Some(value: T)

  /** What a like interaction did, and so which reply the member gets. */
  datatype LikeAction = Liked | Unliked

  /** `data.get(id, {}).get("nickname_changes", [])`. */
  function ListOf(data: Store, id: MemberId): seq<Change>
  {
    if id in data then data[id] else []
  }

  /** A record as both recorders create it: no likes and nobody in `liked_by`. */
  function FreshChange(oldName: string, newName: string, date: string): Change
  {
    Change(oldName, newName, date, 0, [])
  }

  predicate NoDuplicates(s: seq<MemberId>)
  {
    forall i, j :: 0 <= i < j < |s| ==> s[i] != s[j]
  }

  /** The stored counter agrees with the voter list, and nobody voted twice. */
  predicate Consistent(c: Change)
  {
    c.likes == |c.likedBy| && NoDuplicates(c.likedBy)
  }

  predicate AllConsistent(s: seq<Change>)
  {
    forall i :: 0 <= i < |s| ==> Consistent(s[i])
  }

  predicate StoreConsistent(data: Store)
  {
    forall id :: id in data ==> AllConsistent(data[id])
  }

  lemma {:induction false} NoDuplicatesCons(x: MemberId, s: seq<MemberId>)
    ensures NoDuplicates([x] + s) <==> x !in s && NoDuplicates(s)
  {
    var t := [x] + s;
    if x !in s && NoDuplicates(s) {
      forall i, j | 0 <= i < j < |t| ensures t[i] != t[j] {
        if i == 0 {
          assert t[j] == s[j - 1];
        } else {
          assert t[i] == s[i - 1] && t[j] == s[j - 1];
        }
      }
    }
    if NoDuplicates(t) {
      forall i, j | 0 <= i < j < |s| ensures s[i] != s[j] {
        assert s[i] == t[i + 1] && s[j] == t[j + 1];
      }
      forall k | 0 <= k < |s| ensures s[k] != x {
        assert s[k] == t[k + 1] && x == t[0];
      }
    }
  }

  /** The position of the first occurrence of `x`, as `list.index` finds it. */
  function IndexOf(s: seq<MemberId>, x: MemberId): (i: nat)
    requires x in s
    ensures i < |s| && s[i] == x && x !in s[..i]
  {
    if s[0] == x then 0
    else
      var k := IndexOf(s[1..], x);
      assert s[..k + 1] == [s[0]] + s[1..][..k];
      k + 1
  }

  /** `list.remove(x)`: drops the first occurrence of `x`; the other voters keep
      their order. */
  function RemoveFirst(s: seq<MemberId>, x: MemberId): (r: seq<MemberId>)
    requires x in s
    ensures r == s[..IndexOf(s, x)] + s[IndexOf(s, x) + 1..]
    ensures |r| == |s| - 1
    ensures multiset(r) == multiset(s) - multiset{x}
    ensures NoDuplicates(s) ==> NoDuplicates(r) && x !in r
  {
    var i := IndexOf(s, x);
    SpliceMultiset(s, i);
    SpliceNoDuplicates(s, i);
    s[..i] + s[i + 1..]
  }

  lemma SpliceMultiset(s: seq<MemberId>, i: nat)
    requires i < |s|
    ensures multiset(s[..i] + s[i + 1..]) == multiset(s) - multiset{s[i]}
  {
    assert s == s[..i] + [s[i]] + s[i + 1..];
  }

  /** Cutting one voter out of a duplicate-free list leaves it duplicate-free,
      and that voter no longer appears. */
  lemma SpliceNoDuplicates(s: seq<MemberId>, i: nat)
    requires i < |s|
    ensures NoDuplicates(s) ==> NoDuplicates(s[..i] + s[i + 1..]) && s[i] !in s[..i] + s[i + 1..]
  {
  }

  /** The toggle part of the like callback: a voter already in `liked_by` is removed
      and the counter goes down by one; otherwise the voter is appended and the
      counter goes up by one. Names and date are untouched. */
  function ToggleLike(c: Change, voter: MemberId): (r: Change)
    ensures r.oldName == c.oldName && r.newName == c.newName && r.date == c.date
    ensures c.likes == |c.likedBy| ==> r.likes == |r.likedBy|
    ensures r.likes - c.likes == (if voter in c.likedBy then -1 else 1)
  {
    if voter in c.likedBy then
      c.(likedBy := RemoveFirst(c.likedBy, voter), likes := c.likes - 1)
    else
      c.(likedBy := c.likedBy + [voter], likes := c.likes + 1)
  }

  /** Which of the two replies the like callback sends: "liked" exactly when the
      toggle raised the counter, and, on a list without duplicates, exactly when
      the voter is in `liked_by` afterwards. */
  function ActionOf(c: Change, voter: MemberId): (r: LikeAction)
    ensures r == Liked <==> ToggleLike(c, voter).likes == c.likes + 1
    ensures NoDuplicates(c.likedBy) ==> (r == Liked <==> voter in ToggleLike(c, voter).likedBy)
  {
    if voter in c.likedBy then Unliked else Liked
  }

  /** On a consistent record, a toggle flips exactly the voter's membership,
      moves the counter by one in the matching direction and keeps the record
      consistent. */
  lemma ToggleFlipsOnlyVoter(c: Change, voter: MemberId)
    requires Consistent(c)
    ensures Consistent(ToggleLike(c, voter))
    ensures voter in ToggleLike(c, voter).likedBy <==> voter !in c.likedBy
    ensures forall u :: u != voter ==> (u in ToggleLike(c, voter).likedBy <==> u in c.likedBy)
    ensures ToggleLike(c, voter).likes == c.likes + (if ActionOf(c, voter) == Liked then 1 else -1)
  {
  }

  /** Liking and then unliking a record the voter had not liked gives the record back. */
  lemma LikeThenUnlikeRestores(c: Change, voter: MemberId)
    requires voter !in c.likedBy
    ensures ToggleLike(ToggleLike(c, voter), voter) == c
  {
    RemoveLast(c.likedBy, voter);
  }

  /** Unliking and then liking again a record the voter had liked gives back the
      counter and the voters; only the voter's position may change (it moves to the end). */
  lemma UnlikeThenLikeRestores(c: Change, voter: MemberId)
    requires Consistent(c) && voter in c.likedBy
    ensures ToggleLike(ToggleLike(c, voter), voter).likes == c.likes
    ensures multiset(ToggleLike(ToggleLike(c, voter), voter).likedBy) == multiset(c.likedBy)
    ensures ToggleLike(ToggleLike(c, voter), voter).likedBy == RemoveFirst(c.likedBy, voter) + [voter]
  {
  }

  /** Removing an appended voter that was not there before gives the list back:
      the first occurrence is the appended one. */
  lemma RemoveLast(s: seq<MemberId>, x: MemberId)
    requires x !in s
    ensures RemoveFirst(s + [x], x) == s
  {
  }

  /** The like callback run once per voter, in the given order. */
  function ToggleAll(c: Change, voters: seq<MemberId>): Change
    decreases |voters|
  {
    if voters == [] then c else ToggleAll(ToggleLike(c, voters[0]), voters[1..])
  }

  /** Distinct voters who had not liked a record each add one like: the counter
      grows by their number and they are appended in voting order. */
  lemma {:induction false} DistinctVotersAllCount(c: Change, voters: seq<MemberId>)
    requires Consistent(c) && NoDuplicates(voters)
    requires forall i :: 0 <= i < |voters| ==> voters[i] !in c.likedBy
    ensures Consistent(ToggleAll(c, voters))
    ensures ToggleAll(c, voters).likes == c.likes + |voters|
    ensures ToggleAll(c, voters).likedBy == c.likedBy + voters
    decreases |voters|
  {
    if voters != [] {
      var once := ToggleLike(c, voters[0]);
      ToggleFlipsOnlyVoter(c, voters[0]);
      assert voters == [voters[0]] + voters[1..];
      NoDuplicatesCons(voters[0], voters[1..]);
      forall i | 0 <= i < |voters[1..]| ensures voters[1..][i] !in once.likedBy {
        assert voters[1..][i] == voters[i + 1];
        assert voters[i + 1] != voters[0];
      }
      DistinctVotersAllCount(once, voters[1..]);
      assert once.likedBy == c.likedBy + [voters[0]];
    }
  }
}
