/** The `!wholike` command: who liked the author's own renames, or who liked
    a given nickname anywhere in the document. */
module WhoLike {
  import opened Changes

  /** What the command replies, before it is turned into message text. */
  datatype Reply =
    | NoChanges                          // the author has no recorded rename
    | NicknameNotFound                   // no record anywhere has that new name
    | Likers(likers: seq<MemberId>)      // `liked_by` of the record found for the nickname
    | LikedList(changes: seq<Change>)    // the author's records that have likes

  /** `str.lower()` on one character, for the ASCII letters. */
  function LowerChar(c: char): char
  {
    if 'A' <= c <= 'Z' then (c as int + 32) as char else c
  }

  /** The ASCII stand-in for `str.lower()`: each character is mapped on its
      own, one for one (Python's full mapping need not keep the length). */
  function Lower(s: string): string
  {
    seq(|s|, i requires 0 <= i < |s| => LowerChar(s[i]))
  }

  /** `change["new"].lower() == nickname.lower()`. */
  predicate Matches(c: Change, nickname: string)
  {
    Lower(c.newName) == Lower(nickname)
  }

  /** Lower-casing twice changes nothing more. */
  lemma LowerIdempotent(s: string)
    ensures Lower(Lower(s)) == Lower(s)
  {
    var l := Lower(s);
    forall i | 0 <= i < |l| ensures Lower(l)[i] == l[i] {
      assert l[i] == LowerChar(s[i]);
    }
  }

  /** The lookup ignores case: a nickname matches exactly the records its
      lower-cased form matches, so `!wholike ABC` and `!wholike abc` agree. */
  lemma MatchesIgnoresCase(c: Change, nickname: string)
    ensures Matches(c, nickname) <==> Matches(c, Lower(nickname))
  {
    LowerIdempotent(nickname);
  }

  /** `if nickname:` — an absent or empty argument selects the listing branch:
      both `None` and `""` are false in Python. */
  predicate Given(nickname: Option<string>)
  {
    nickname.Some? && nickname.value != ""
  }

  /** The filter of the listing branch: the records whose stored counter is positive. */
  function LikedChanges(changes: seq<Change>): (r: seq<Change>)
    ensures |r| <= |changes|
    ensures forall k :: 0 <= k < |r| ==> r[k].likes > 0
  {
    if changes == [] then []
    else (if changes[0].likes > 0 then [changes[0]] else []) + LikedChanges(changes[1..])
  }

  /** A record is listed exactly when it is one of the member's and has a like. */
  lemma {:induction false} LikedChangesMembers(changes: seq<Change>, c: Change)
    ensures c in LikedChanges(changes) <==> c in changes && c.likes > 0
  {
    if changes != [] {
      LikedChangesMembers(changes[1..], c);
      assert changes == [changes[0]] + changes[1..];
    }
  }

  /** The listing keeps stored order: filtering a concatenation filters each part. */
  lemma {:induction false} LikedChangesAppend(a: seq<Change>, b: seq<Change>)
    ensures LikedChanges(a + b) == LikedChanges(a) + LikedChanges(b)
  {
    if a == [] {
      assert a + b == b;
    } else {
      assert (a + b)[0] == a[0] && (a + b)[1..] == a[1..] + b;
      LikedChangesAppend(a[1..], b);
    }
  }

  /** On consistent records the stored counter and the voter list agree, so the
      listed records are exactly those somebody has liked. */
  lemma {:induction false} LikedChangesHaveLikers(changes: seq<Change>)
    requires AllConsistent(changes)
    ensures forall k :: 0 <= k < |LikedChanges(changes)| ==> LikedChanges(changes)[k].likedBy != []
    ensures forall k :: 0 <= k < |changes| && changes[k].likedBy != [] ==> changes[k] in LikedChanges(changes)
  {
    forall k | 0 <= k < |LikedChanges(changes)| ensures LikedChanges(changes)[k].likedBy != [] {
      var c := LikedChanges(changes)[k];
      LikedChangesMembers(changes, c);
      var j :| 0 <= j < |changes| && changes[j] == c;
      assert Consistent(changes[j]);
    }
    forall k | 0 <= k < |changes| && changes[k].likedBy != [] ensures changes[k] in LikedChanges(changes) {
      assert Consistent(changes[k]);
      LikedChangesMembers(changes, changes[k]);
    }
  }

  /** The position at which the inner lookup loop breaks, if it does. */
  function FirstMatch(changes: seq<Change>, nickname: string): (r: Option<nat>)
    ensures r.None? <==> forall k :: 0 <= k < |changes| ==> !Matches(changes[k], nickname)
    ensures r.Some? ==> r.value < |changes| && Matches(changes[r.value], nickname)
    ensures r.Some? ==> forall k :: 0 <= k < r.value ==> !Matches(changes[k], nickname)
  {
    if changes == [] then None
    else if Matches(changes[0], nickname) then Some(0)
    else match FirstMatch(changes[1..], nickname)
      case None => None
      case Some(k) => Some(k + 1)
  }

  /** The lookup loops over `data.values()`: the `break` leaves only the inner loop,
      so a later member's match replaces an earlier one, and the result is the first
      matching record of the LAST member (in iteration order) that has one. */
  method FindNickname(lists: seq<seq<Change>>, nickname: string) returns (found: Option<Change>)
    ensures found.None? <==> forall o, p :: 0 <= o < |lists| && 0 <= p < |lists[o]| ==> !Matches(lists[o][p], nickname)
    ensures found.Some? ==>
      exists o :: (0 <= o < |lists| && FirstMatch(lists[o], nickname).Some?
        && found.value == lists[o][FirstMatch(lists[o], nickname).value]
        && forall o' :: o < o' < |lists| ==> FirstMatch(lists[o'], nickname).None?)
  {
    found := None;
    ghost var owner := 0;
    var i := 0;
    while i < |lists|
      invariant 0 <= i <= |lists|
      invariant found.None? <==> forall o :: 0 <= o < i ==> FirstMatch(lists[o], nickname).None?
      invariant found.Some? ==> (0 <= owner < i && FirstMatch(lists[owner], nickname).Some?
        && found.value == lists[owner][FirstMatch(lists[owner], nickname).value]
        && forall o' :: owner < o' < i ==> FirstMatch(lists[o'], nickname).None?)
    {
      var changes := lists[i];
      ghost var matched := false;
      ghost var before := found;
      var j := 0;
      while j < |changes|
        invariant 0 <= j <= |changes|
        invariant forall m :: 0 <= m < j ==> !Matches(changes[m], nickname)
        invariant !matched && found == before
      {
        if Lower(changes[j].newName) == Lower(nickname) {
          found := Some(changes[j]);
          matched := true;
          break;
        }
        j := j + 1;
      }
      if matched {
        assert FirstMatch(changes, nickname) == Some(j);
        owner := i;
      } else {
        assert FirstMatch(lists[i], nickname).None?;
        forall o' | owner < o' < i + 1 && found.Some? ensures FirstMatch(lists[o'], nickname).None? {
          if o' < i {
            assert owner < o' < i;
          }
        }
      }
      i := i + 1;
    }
    if found.None? {
      forall o, p | 0 <= o < |lists| && 0 <= p < |lists[o]| ensures !Matches(lists[o][p], nickname) {
        assert FirstMatch(lists[o], nickname).None?;
      }
    }
  }

  /** The values of the document in its iteration order: entry `k` is the
      list of member `order[k]`. */
  function ValuesInOrder(data: Store, order: seq<MemberId>): seq<seq<Change>>
    requires forall k :: 0 <= k < |order| ==> order[k] in data
  {
    seq(|order|, k requires 0 <= k < |order| => data[order[k]])
  }

  /** `wholike`: `order` is the order in which the loaded document lists its members. */
  method WhoLike(data: Store, order: seq<MemberId>, authorId: MemberId, nickname: Option<string>)
    returns (reply: Reply)
    requires forall k :: 0 <= k < |order| ==> order[k] in data
    requires forall u :: u in data ==> u in order
    ensures ListOf(data, authorId) == [] <==> reply == NoChanges
    ensures ListOf(data, authorId) != [] && !Given(nickname) ==>
      reply == LikedList(LikedChanges(data[authorId]))
    ensures ListOf(data, authorId) != [] && Given(nickname) ==>
      (reply == NicknameNotFound <==>
        forall u, p :: u in data && 0 <= p < |data[u]| ==> !Matches(data[u][p], nickname.value))
    ensures ListOf(data, authorId) != [] && Given(nickname) && reply != NicknameNotFound ==> reply.Likers?
    ensures reply.Likers? ==> (Given(nickname) &&
      exists u, p :: u in data && 0 <= p < |data[u]| && Matches(data[u][p], nickname.value)
        && reply.likers == data[u][p].likedBy)
    ensures reply.Likers? ==> (Given(nickname) &&
      exists o :: (0 <= o < |order| && FirstMatch(data[order[o]], nickname.value).Some?
        && reply.likers == data[order[o]][FirstMatch(data[order[o]], nickname.value).value].likedBy
        && forall o' :: o < o' < |order| ==> FirstMatch(data[order[o']], nickname.value).None?))
  {
    if authorId !in data || data[authorId] == [] {
      return NoChanges;
    }
    if nickname.Some? && nickname.value != "" {
      var lists := ValuesInOrder(data, order);
      var found := FindNickname(lists, nickname.value);
      if found.None? {
        forall u, p | u in data && 0 <= p < |data[u]| ensures !Matches(data[u][p], nickname.value) {
          var o :| 0 <= o < |order| && order[o] == u;
          assert lists[o] == data[u];
        }
        return NicknameNotFound;
      }
      var o :| 0 <= o < |lists| && FirstMatch(lists[o], nickname.value).Some?
        && found.value == lists[o][FirstMatch(lists[o], nickname.value).value]
        && forall o' :: o < o' < |lists| ==> FirstMatch(lists[o'], nickname.value).None?;
      assert lists[o] == data[order[o]];
      assert forall o' :: o < o' < |order| ==> lists[o'] == data[order[o']];
      reply := Likers(found.value.likedBy);
      assert Matches(data[order[o]][FirstMatch(lists[o], nickname.value).value], nickname.value);
    } else {
      reply := LikedList(LikedChanges(data[authorId]));
    }
  }
}
