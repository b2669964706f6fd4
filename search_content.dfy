/**
 * The legacy search task: remembers the parameters of the last search,
 * fetches the matching books once through a small state machine and reports
 * the outcome to its listener; a search that is READY or FAILED answers
 * every later request from what it already holds.
 *
 * The two store selections are parameters that answer None when they fail
 * (throw); the listener is the sequence of calls it has received; the
 * background task is a call made by the caller.
 */
module Search {
  import opened Domain

  datatype State = NonInit | Init | Done | Ready | Failed

  /** A call received by the listener. */
  datatype ListenerCall =
    | ContentReady(success: bool, contents: seq<Content>)
    | ContentFailed(failure: bool)

  /** The two calls that report a search's outcome to the listener. */
  function Report(success: bool, failure: bool, contents: seq<Content>): (r: seq<ListenerCall>)
    ensures |r| == 2 && r[0].ContentReady? && r[1].ContentFailed?
    ensures r[0].success == success && r[0].contents == contents && r[1].failure == failure
  {
    [ContentReady(success, contents), ContentFailed(failure)]
  }

  /**
   * The state retrieveContent leaves: it always settles in READY or FAILED,
   * and READY only when a launched search (INIT) fetched successfully or the
   * search was READY already.
   */
  function StateAfterRetrieve(s: State, fetched: bool): (r: State)
    ensures r == Ready || r == Failed
    ensures r == Ready <==> (s == Init && fetched) || s == Ready
  {
    if s == Init then (if fetched then Ready else Failed)
    else if s == Ready then Ready
    else Failed
  }

  class SearchContent {
    var state: State
    var contentList: seq<Content>
    var hasListener: bool
    /** Calls received by the listener so far. */
    var reported: seq<ListenerCall>
    /** Background search tasks started so far. */
    var tasksLaunched: nat
    var query: Option<string>
    var currentPage: int
    var booksPerPage: int
    var orderStyle: int
    var tagFilter: seq<string>

    /** A search that has not started, with nothing found yet. */
    constructor (hasListener: bool)
      ensures state == NonInit && contentList == [] && reported == [] && tasksLaunched == 0
      ensures this.hasListener == hasListener && tagFilter == []
    {
      state := NonInit;
      contentList := [];
      this.hasListener := hasListener;
      reported := [];
      tasksLaunched := 0;
      query := None;
      currentPage := 0;
      booksPerPage := 0;
      orderStyle := 0;
      tagFilter := [];
    }

    /**
     * The private retrieveResults: a READY search reports success with what
     * it holds and a FAILED one reports failure, neither starting anything;
     * from any other state the search is (re)launched in state INIT. The
     * listener is called without a null check, so a settled search needs one.
     */
    method Retrieve()
      requires state == Ready || state == Failed ==> hasListener
      modifies this`state, this`reported, this`tasksLaunched
      ensures old(state) == Ready ==>
                reported == old(reported) + Report(true, false, contentList)
                && state == Ready && tasksLaunched == old(tasksLaunched)
      ensures old(state) == Failed ==>
                reported == old(reported) + Report(false, true, contentList)
                && state == Failed && tasksLaunched == old(tasksLaunched)
      ensures old(state) != Ready && old(state) != Failed ==>
                state == Init && tasksLaunched == old(tasksLaunched) + 1 && reported == old(reported)
    {
      if state == Ready {
        reported := reported + Report(true, false, contentList);
        return;
      } else if state == Failed {
        reported := reported + Report(false, true, contentList);
        return;
      }
      state := Init;
      tasksLaunched := tasksLaunched + 1;
    }

    /** retrieveResults(tagFilter, orderStyle): a tag search with no query, page or page size. */
    method RetrieveResultsByTags(filter: seq<string>, order: int)
      requires state == Ready || state == Failed ==> hasListener
      modifies this
      ensures query == None && currentPage == 0 && booksPerPage == 0
      ensures orderStyle == order && tagFilter == filter
      ensures contentList == old(contentList) && hasListener == old(hasListener)
      ensures old(state) == Ready ==>
                state == Ready && tasksLaunched == old(tasksLaunched)
                && reported == old(reported) + Report(true, false, contentList)
      ensures old(state) == Failed ==>
                state == Failed && tasksLaunched == old(tasksLaunched)
                && reported == old(reported) + Report(false, true, contentList)
      ensures old(state) != Ready && old(state) != Failed ==>
                state == Init && tasksLaunched == old(tasksLaunched) + 1 && reported == old(reported)
    {
      query := None;
      currentPage := 0;
      booksPerPage := 0;
      orderStyle := order;
      tagFilter := filter;
      Retrieve();
    }

    /** retrieveResults(query, currentPage, booksPerPage, orderStyle): a query search, with the tag filter cleared. */
    method RetrieveResultsByQuery(q: string, page: int, perPage: int, order: int)
      requires state == Ready || state == Failed ==> hasListener
      modifies this
      ensures query == Some(q) && currentPage == page && booksPerPage == perPage
      ensures orderStyle == order && tagFilter == []
      ensures contentList == old(contentList) && hasListener == old(hasListener)
      ensures old(state) == Ready ==>
                state == Ready && tasksLaunched == old(tasksLaunched)
                && reported == old(reported) + Report(true, false, contentList)
      ensures old(state) == Failed ==>
                state == Failed && tasksLaunched == old(tasksLaunched)
                && reported == old(reported) + Report(false, true, contentList)
      ensures old(state) != Ready && old(state) != Failed ==>
                state == Init && tasksLaunched == old(tasksLaunched) + 1 && reported == old(reported)
    {
      tagFilter := [];
      query := Some(q);
      currentPage := page;
      booksPerPage := perPage;
      orderStyle := order;
      Retrieve();
    }

    /**
     * retrieveContent: a launched search (INIT) fetches by tags when a tag
     * filter is set and by query otherwise; the state then settles in READY
     * or FAILED as StateAfterRetrieve says, and only a successful fetch
     * replaces the books held.
     */
    method RetrieveContent(
      q: Option<string>, page: int, perPage: int, filter: seq<string>, order: int,
      selectByQuery: (Option<string>, int, int, int) -> Option<seq<Content>>,
      selectByTags: seq<string> -> Option<seq<Content>>)
      returns (result: State)
      modifies this`state, this`contentList
      ensures var fetch := if filter == [] then selectByQuery(q, page, perPage, order) else selectByTags(filter);
              state == StateAfterRetrieve(old(state), fetch.Some?)
              && contentList == if old(state) == Init && fetch.Some? then fetch.value else old(contentList)
      ensures result == state
    {
      if state == Init {
        state := Done;
        var fetched := if filter == [] then selectByQuery(q, page, perPage, order) else selectByTags(filter);
        if fetched.Some? {
          contentList := fetched.value;
          state := Ready;
        }
      }
      if state != Ready {
        // Something bad happened
        state := Failed;
      }
      result := state;
    }

    /** onPostExecute: the listener, if any, is told success exactly when the search is READY and failure exactly when FAILED. */
    method OnPostExecute(current: State)
      modifies this`reported
      ensures reported == old(reported) + if hasListener then Report(current == Ready, current == Failed, contentList) else []
    {
      if hasListener {
        reported := reported + Report(current == Ready, current == Failed, contentList);
      }
    }

    /**
     * The background task, doInBackground then onPostExecute: the search runs
     * with the remembered parameters and its outcome is reported, success
     * exactly when it ends READY and failure exactly when it ends FAILED.
     */
    method RunSearchTask(
      selectByQuery: (Option<string>, int, int, int) -> Option<seq<Content>>,
      selectByTags: seq<string> -> Option<seq<Content>>)
      modifies this`state, this`contentList, this`reported
      ensures state == Ready || state == Failed
      ensures state == Ready <==> (old(state) == Init && (if tagFilter == [] then selectByQuery(query, currentPage, booksPerPage, orderStyle) else selectByTags(tagFilter)).Some?) || old(state) == Ready
      ensures hasListener ==> reported == old(reported) + Report(state == Ready, state == Failed, contentList)
      ensures !hasListener ==> reported == old(reported)
    {
      var current := RetrieveContent(query, currentPage, booksPerPage, tagFilter, orderStyle, selectByQuery, selectByTags);
      OnPostExecute(current);
    }
  }
}
