/** The search box, frontend/src/components/SearchBar.js: a `query` field
    that typing, the clear button and the `initialQuery` prop update, and a
    submit that hands the query to `onSearch` only when it has text. */
module SearchBar {
  import opened JsValues
  import opened JsStrings

  /** `disabled={!query.trim()}`, negated. */
  predicate SubmitEnabled(query: string) {
    Trim(query) != ""
  }

  /** `endAdornment: query && ...`: the clear button is there when the
      query is non-empty. */
  predicate ClearShown(query: string) {
    query != ""
  }

  /** Submitting is possible exactly when the query is not all white space;
      then the clear button is shown too, while a blank query shows the clear
      button and a disabled submit. */
  lemma ButtonsAgree(query: string)
    ensures SubmitEnabled(query) <==> exists i :: 0 <= i < |query| && !IsJsWhitespace(query[i])
    ensures SubmitEnabled(query) ==> ClearShown(query)
    ensures !SubmitEnabled(" ") && ClearShown(" ")
  {
    TrimEmptyIffBlank(query);
    TrimEmptyIffBlank(" ");
  }

  class SearchBox {
    var query: string
    /** The `initialQuery` prop last seen. */
    var initialQuery: string

    constructor (initialQuery: string)
      ensures query == initialQuery && this.initialQuery == initialQuery
    {
      query := initialQuery;
      this.initialQuery := initialQuery;
    }

    /** `handleSubmit`: the value `onSearch` is called with, untrimmed, or
        `None` when it is not called; the query is left as it is. */
    method HandleSubmit() returns (searched: Option<string>)
      ensures searched.Some? <==> SubmitEnabled(query)
      ensures searched.Some? ==> searched.value == query
    {
      if Trim(query) != "" {
        searched := Some(query);
      } else {
        searched := None;
      }
    }

    /** `handleClear`: the query is emptied and `onSearch('')` is called. */
    method HandleClear() returns (searched: string)
      modifies this`query
      ensures query == "" && searched == ""
      ensures !ClearShown(query) && !SubmitEnabled(query)
    {
      query := "";
      searched := "";
    }

    /** The input's `onChange`. */
    method OnChange(value: string)
      modifies this`query
      ensures query == value
    {
      query := value;
    }

    /** A new `initialQuery` prop: the effect copies it into the query when
        it differs from the one last seen. */
    method ReceiveInitialQuery(initial: string)
      modifies this`query, this`initialQuery
      ensures initialQuery == initial
      ensures query == if initial != old(initialQuery) then initial else old(query)
    {
      if initial != initialQuery {
        query := initial;
      }
      initialQuery := initial;
    }
  }
}
