/** The launcher's state as the search box, the history list and the result
    list see it, and the two actions that change it. */
module Launcher {
  import opened Text
  import opened History
  import opened StableSort
  import opened FileIndex
  import opened SearchEngine

  datatype State = State(index: Index, history: seq<string>, results: seq<Row>)

  /** `on_search` with the text of the search box. A query that is empty
      after stripping white space changes nothing. Otherwise the stripped
      query becomes the newest history entry, the history stays within its
      bound, the index is untouched and the results become exactly the
      owed rows, best score first, rows of equal score in index order. */
  function OnSearch(st: State, text: string, stat: Stat): (r: State)
    ensures AllSpace(text) ==> r == st
    ensures !AllSpace(text) ==>
              var q := Strip(text);
              && q != [] && !IsSpace(q[0]) && !IsSpace(q[|q| - 1])
              && r.index == st.index
              && 0 < |r.history| <= MaxHistory && r.history[|r.history| - 1] == q
              && (q in st.history ==> |r.history| <= |st.history|)
              && SortedDesc(r.results, Rank(q))
              && SameKeyOrder(Collect(st.index, q, stat), r.results, Rank(q))
              && (forall row :: row in r.results <==> Owed(st.index, q, stat, row))
  {
    var q := Strip(text);
    if q == [] then st
    else State(st.index, Record(st.history, q), Search(st.index, q, stat))
  }

  /** `clear_history`: the history empties and nothing else changes. */
  function ClearHistory(st: State): (r: State)
    ensures r.history == [] && r.index == st.index && r.results == st.results
  {
    st.(history := [])
  }
}
