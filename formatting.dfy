/** Display formatting shared by the frontend components: topic names and the guard in front of
    date formatting. */
module Formatting {
  import opened Common

  /** `\b\w` at index `i`: a word character with no word character before it. */
  predicate RunStart(s: string, i: int)
    requires 0 <= i < |s|
  {
    IsWordChar(s[i]) && (i == 0 || !IsWordChar(s[i - 1]))
  }

  /** `formatTopic`: underscores become spaces, then the first character of every word is
      upper-cased; every other character is kept as it is. */
  function FormatTopic(topic: string): (r: string)
    ensures |r| == |topic|
  {
    var u := Underscores(topic);
    seq(|u|, i requires 0 <= i < |u| => if RunStart(u, i) then ToUpper(u[i]) else u[i])
  }

  /** Upper-casing keeps word characters word characters and is idempotent. */
  lemma UpperKeepsWordChars(c: char)
    ensures IsWordChar(ToUpper(c)) == IsWordChar(c)
    ensures ToUpper(ToUpper(c)) == ToUpper(c)
    ensures ToLower(ToUpper(c)) == ToLower(c)
  {
  }

  /** A formatted topic has the topic's length and no underscore; each underscore became a
      space; the first character of each run of letters and digits is upper-cased, every other
      character is the topic's own, and no letter is lower-cased. */
  lemma FormatTopicShape(topic: string)
    ensures var f, u := FormatTopic(topic), Underscores(topic);
      && |f| == |topic|
      && (forall i :: 0 <= i < |f| ==> f[i] != '_')
      && (forall i :: 0 <= i < |f| ==> topic[i] == '_' ==> f[i] == ' ')
      && (forall i :: 0 <= i < |f| ==> RunStart(u, i) ==> f[i] == ToUpper(topic[i]))
      && (forall i :: 0 <= i < |f| ==> !RunStart(u, i) ==> f[i] == u[i])
      && (forall i :: 0 <= i < |f| ==> IsUpper(topic[i]) ==> f[i] == topic[i])
      && (forall i :: 0 <= i < |f| ==> IsAlnum(f[i]) == IsAlnum(topic[i]))
  {
    var f, u := FormatTopic(topic), Underscores(topic);
    forall i | 0 <= i < |f|
      ensures f[i] != '_' && IsAlnum(f[i]) == IsAlnum(topic[i])
      ensures IsUpper(topic[i]) ==> f[i] == topic[i]
    {
      UpperKeepsWordChars(u[i]);
    }
  }

  /** Formatting a formatted topic changes nothing. */
  lemma FormatTopicIdempotent(topic: string)
    ensures FormatTopic(FormatTopic(topic)) == FormatTopic(topic)
  {
    var f := FormatTopic(topic);
    var u := Underscores(topic);
    FormatTopicShape(topic);
    assert Underscores(f) == f;
    forall i | 0 <= i < |f|
      ensures RunStart(f, i) == RunStart(u, i)
    {
      UpperKeepsWordChars(u[i]);
      if i > 0 {
        UpperKeepsWordChars(u[i - 1]);
      }
    }
    forall i | 0 <= i < |f|
      ensures FormatTopic(f)[i] == f[i]
    {
      UpperKeepsWordChars(u[i]);
    }
  }

  /** `formatDate`: no date, or an empty one, gives nothing; otherwise the date at local
      midnight in the browser's long US format, which is passed in as `localeFormat`. */
  function FormatDate(date: Option<string>, localeFormat: string -> string): (r: Option<string>)
    ensures r.None? <==> !Truthy(date)
    ensures r.Some? ==> r.value == localeFormat(date.value + "T00:00:00")
  {
    if !Truthy(date) then None else Some(localeFormat(date.value + "T00:00:00"))
  }
}
