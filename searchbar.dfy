/** The search box: it keeps its own copy of the query text, follows the query it is given, and
    starts a search on submit only when there is something besides whitespace. */
module SearchBar {
  import opened Common

  class SearchBox {
    /** The query the page passes in. */
    var value: string
    /** The text in the input. */
    var inputValue: string

    constructor (value: string)
      ensures this.value == value && inputValue == value
    {
      this.value := value;
      inputValue := value;
    }

    /** A new query from the page overwrites whatever was typed; the same query again leaves
        the input alone. */
    method ReceiveValue(v: string)
      modifies this
      ensures value == v
      ensures inputValue == if v != old(value) then v else old(inputValue)
    {
      if v != value {
        value := v;
        inputValue := v;
      }
    }

    /** Typing changes only the input; no search starts. */
    method Type(text: string)
      modifies this
      ensures inputValue == text && value == old(value)
    {
      inputValue := text;
    }

    /** `handleSubmit`: searches for the trimmed input, and only when that is not empty. The
        query searched for has no leading or trailing whitespace, and is the input with only
        whitespace removed from its ends. */
    method Submit() returns (search: Option<string>)
      ensures search.None? <==> forall i :: 0 <= i < |inputValue| ==> inputValue[i] in JsWhitespace
      ensures search.Some? ==>
        && search.value != ""
        && search.value[0] !in JsWhitespace
        && search.value[|search.value| - 1] !in JsWhitespace
        && exists lo :: StrippedAt(inputValue, search.value, lo, JsWhitespace)
    {
      var trimmed := Strip(inputValue, JsWhitespace);
      if trimmed != "" {
        search := Some(trimmed);
      } else {
        search := None;
      }
    }
  }
}
