/** `NicknameHistoryView`: one member's history, sorted by date or likes, shown a
    page at a time with previous/next buttons, a sort button and a like dropdown. */
module View {
  import opened Changes
  import opened Ordering
  import opened Paging

  /** `PER_PAGE`, the page size a view gets unless it is given another. */
  const PerPage: nat := 10

  /** Sorting keeps every record, so it keeps every record consistent. */
  lemma SortKeepsConsistency(s: seq<Change>, key: SortKey)
    requires AllConsistent(s)
    ensures |StableSort(s, key)| == |s|
    ensures AllConsistent(StableSort(s, key))
  {
    var r := StableSort(s, key);
    SortPermutes(s, key);
    assert |r| == |multiset(r)| == |multiset(s)| == |s|;
    forall i | 0 <= i < |r| ensures Consistent(r[i]) {
      assert r[i] in multiset(s);
      var j :| 0 <= j < |s| && s[j] == r[i];
    }
  }

  class NicknameHistoryView {
    const userId: MemberId
    const pageSize: nat
    /** The view's own copy of the document, loaded when the view was built. */
    var data: Store
    /** The member's list; while the member has an entry it is the same list
        object as `data[userId]`, so sorting it reorders the copy as well. */
    var nicknameChanges: seq<Change>
    var currentPage: nat
    var sortBy: SortKey
    /** The like dropdown's options for the current page. */
    var options: seq<SelectOption>
    var prevDisabled: bool
    var nextDisabled: bool

    ghost predicate Valid()
      reads this
    {
      && pageSize > 0
      && (userId in data ==> data[userId] == nicknameChanges)
      && (userId !in data ==> nicknameChanges == [])
      && (currentPage == 0 || currentPage <= LastPage(|nicknameChanges|, pageSize))
      && options == PageOptions(nicknameChanges, currentPage, pageSize)
      && prevDisabled == (currentPage == 0)
      && nextDisabled == NextDisabled(currentPage, |nicknameChanges|, pageSize)
    }

    /** `__init__`: take the member's list from the loaded document (an empty
        list for a member without one), sort it, start on page 0 with the
        previous button disabled and the next button enabled only when a second
        page exists. */
    constructor (userId: MemberId, data: Store, sortBy: SortKey := ByDate, pageSize: nat := PerPage)
      requires pageSize > 0
      ensures Valid()
      ensures this.userId == userId && this.pageSize == pageSize && this.sortBy == sortBy
      ensures nicknameChanges == StableSort(ListOf(data, userId), sortBy)
      ensures this.data == if userId in data then data[userId := nicknameChanges] else data
      ensures currentPage == 0 && prevDisabled
      ensures nextDisabled <==> |nicknameChanges| <= pageSize
    {
      this.userId := userId;
      this.pageSize := pageSize;
      this.data := data;
      nicknameChanges := ListOf(data, userId);
      currentPage := 0;
      this.sortBy := sortBy;
      new;
      SortNicknames();
      prevDisabled := true;
      nextDisabled := |nicknameChanges| <= pageSize;
      InitialNextButtonAgrees(|nicknameChanges|, pageSize);
      UpdateSelectOptions();
    }

    /** `sort_nicknames`: a stable sort, newest date or most likes first. */
    method SortNicknames()
      modifies this`nicknameChanges, this`data
      ensures nicknameChanges == StableSort(old(nicknameChanges), sortBy)
      ensures |nicknameChanges| == |old(nicknameChanges)|
      ensures data == if userId in old(data) then old(data)[userId := nicknameChanges] else old(data)
    {
      if sortBy == ByDate {
        nicknameChanges := StableSort(nicknameChanges, ByDate);
      } else {
        nicknameChanges := StableSort(nicknameChanges, ByLikes);
      }
      SortPermutes(old(nicknameChanges), sortBy);
      assert |nicknameChanges| == |multiset(nicknameChanges)|;
      if userId in data {
        data := data[userId := nicknameChanges];
      }
    }

    /** `update_select_options`: one option per record of the current page. */
    method UpdateSelectOptions()
      requires pageSize > 0
      modifies this`options
      ensures options == PageOptions(nicknameChanges, currentPage, pageSize)
    {
      var startIdx := currentPage * pageSize;
      var endIdx := startIdx + pageSize;
      var pageNicknames := Slice(nicknameChanges, startIdx, endIdx);
      options := seq(|pageNicknames|, k requires 0 <= k < |pageNicknames| =>
                       SelectOption(startIdx + k, pageNicknames[k]));
    }

    /** The button part of `update_message`; returns the records the message lists. */
    method UpdateMessage() returns (shown: seq<Change>)
      requires pageSize > 0
      modifies this`prevDisabled, this`nextDisabled
      ensures shown == PageOf(nicknameChanges, currentPage, pageSize)
      ensures prevDisabled == (currentPage == 0)
      ensures nextDisabled == NextDisabled(currentPage, |nicknameChanges|, pageSize)
    {
      shown := Slice(nicknameChanges, currentPage * pageSize, currentPage * pageSize + pageSize);
      prevDisabled := currentPage == 0;
      nextDisabled := currentPage >= (|nicknameChanges| - 1) / pageSize;
    }

    /** `toggle_sorting`: switch between date and likes, re-sort, go back to page 0. */
    method ToggleSorting()
      requires Valid()
      modifies this`sortBy, this`nicknameChanges, this`data, this`currentPage,
               this`options, this`prevDisabled, this`nextDisabled
      ensures Valid()
      ensures sortBy == if old(sortBy) == ByDate then ByLikes else ByDate
      ensures nicknameChanges == StableSort(old(nicknameChanges), sortBy)
      ensures data == if userId in old(data) then old(data)[userId := nicknameChanges] else old(data)
      ensures currentPage == 0
    {
      sortBy := if sortBy == ByDate then ByLikes else ByDate;
      SortNicknames();
      currentPage := 0;
      UpdateSelectOptions();
      var _ := UpdateMessage();
    }

    /** `prev_page_callback`: go back one page unless already on page 0. */
    method PrevPage()
      requires Valid()
      modifies this`currentPage, this`options, this`prevDisabled, this`nextDisabled
      ensures Valid()
      ensures currentPage == if old(currentPage) > 0 then old(currentPage) - 1 else old(currentPage)
    {
      if currentPage > 0 {
        currentPage := currentPage - 1;
        UpdateSelectOptions();
        var _ := UpdateMessage();
      }
    }

    /** `next_page_callback`: go forward one page only while below the last page index. */
    method NextPage()
      requires Valid()
      modifies this`currentPage, this`options, this`prevDisabled, this`nextDisabled
      ensures Valid()
      ensures currentPage == if old(currentPage) < LastPage(|nicknameChanges|, pageSize)
                             then old(currentPage) + 1 else old(currentPage)
    {
      if currentPage < (|nicknameChanges| - 1) / pageSize {
        currentPage := currentPage + 1;
        UpdateSelectOptions();
        var _ := UpdateMessage();
      }
    }

    /** `like_select_callback`: toggle `voter`'s like on the selected record, write
        the view's copy of the document (returned as `saved`), then re-sort and
        rebuild the dropdown on the same page. */
    method LikeSelect(selected: nat, voter: MemberId) returns (action: LikeAction, saved: Store)
      requires Valid()
      requires selected < |nicknameChanges|
      modifies this`nicknameChanges, this`data, this`options
      ensures Valid()
      ensures action == ActionOf(old(nicknameChanges)[selected], voter)
      ensures saved == old(data)[userId := old(nicknameChanges)[selected := ToggleLike(old(nicknameChanges)[selected], voter)]]
      ensures nicknameChanges == StableSort(saved[userId], sortBy)
      ensures data == saved[userId := nicknameChanges]
      ensures StoreConsistent(old(data)) ==> StoreConsistent(saved) && StoreConsistent(data)
    {
      var change := nicknameChanges[selected];
      action := ActionOf(change, voter);
      nicknameChanges := nicknameChanges[selected := ToggleLike(change, voter)];
      data := data[userId := nicknameChanges];
      saved := data;
      SortNicknames();
      UpdateSelectOptions();
      if StoreConsistent(old(data)) {
        ToggleFlipsOnlyVoter(old(nicknameChanges)[selected], voter);
        SortKeepsConsistency(saved[userId], sortBy);
      }
    }
  }
}
