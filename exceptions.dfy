/** The JSON error bodies the API returns: HTTP errors keep their status, request-validation
    failures become one 422 with a readable list of what was wrong, and anything else is a 500. */
module Exceptions {
  import opened Common

  /** A response: its status code and the `error` and `detail` fields of its body. */
  datatype ErrorBody = ErrorBody(status: int, error: string, detail: Option<string>)

  /** `http_exception_handler`: the status is kept; the error is the exception's detail, or
      "Request error" when that is missing or empty; the detail field is null. */
  function HttpErrorBody(status: int, detail: Option<string>): (r: ErrorBody)
    ensures r.status == status && r.detail.None?
    ensures Truthy(detail) ==> r.error == detail.value
    ensures !Truthy(detail) ==> r.error == "Request error"
    ensures r.error != ""
  {
    ErrorBody(status, if Truthy(detail) then detail.value else "Request error", None)
  }

  /** `unhandled_exception_handler`: whatever went wrong, a 500 with a fixed message. */
  function UnhandledErrorBody(): (r: ErrorBody)
    ensures r.status == 500 && r.error == "Internal server error" && r.detail.None?
  {
    ErrorBody(500, "Internal server error", None)
  }

  // ---------------------------------------------------------------------------
  // Validation errors
  // ---------------------------------------------------------------------------

  /** One step of an error's location: a field name or a list index. */
  datatype LocPart = Key(name: string) | Index(i: int)

  /** One entry of a validation failure: where it is and what is wrong. */
  datatype ValidationError = ValidationError(loc: seq<LocPart>, msg: string)

  function DigitChar(d: int): char
    requires 0 <= d < 10
  {
    ('0' as int + d) as char
  }

  /** `str(n)` for a natural number: its shortest decimal digits. */
  function NatDecimal(n: nat): (r: string)
    ensures r != [] && AllDigits(r) && DigitsValue(r) == n
    ensures r[0] == '0' ==> n == 0
    decreases n
  {
    if n < 10 then [DigitChar(n)]
    else
      var init := NatDecimal(n / 10);
      var r := init + [DigitChar(n % 10)];
      assert r[..|r| - 1] == init;
      r
  }

  /** `str(x)` of a location step: the name itself, or the index in decimal with a leading `-`
      when it is negative. */
  function LocText(p: LocPart): (r: string)
    ensures p.Key? ==> r == p.name
    ensures p.Index? && p.i >= 0 ==> AllDigits(r) && r != [] && DigitsValue(r) == p.i
    ensures p.Index? && p.i < 0 ==> r != [] && r[0] == '-' && AllDigits(r[1..]) && DigitsValue(r[1..]) == -p.i
  {
    match p
    case Key(name) => name
    case Index(i) => if i >= 0 then NatDecimal(i) else "-" + NatDecimal(-i)
  }

  /** The location of an error, its steps joined by an arrow. */
  function LocLine(loc: seq<LocPart>): string {
    Join(seq(|loc|, k requires 0 <= k < |loc| => LocText(loc[k])), " → ")
  }

  /** The message for one error: it starts with the location line followed by a colon and a
      space, ends with the error's own text, and is never empty. */
  function Message(e: ValidationError): (m: string)
    ensures var l := LocLine(e.loc);
      && IsPrefix(l + ": ", m)
      && |m| == |l| + 2 + |e.msg| && m[|l| + 2..] == e.msg
  {
    LocLine(e.loc) + ": " + e.msg
  }

  /** The messages of all errors, in order. */
  function Messages(errors: seq<ValidationError>): (r: seq<string>)
    ensures |r| == |errors| && forall k :: 0 <= k < |errors| ==> r[k] == Message(errors[k])
  {
    seq(|errors|, k requires 0 <= k < |errors| => Message(errors[k]))
  }

  /** `validation_exception_handler`: collects one message per error and answers 422 with them
      joined by semicolons. */
  method ValidationErrorBody(errors: seq<ValidationError>) returns (r: ErrorBody)
    ensures r == ErrorBody(422, "Validation error", Some(Join(Messages(errors), "; ")))
  {
    var messages: seq<string> := [];
    for k := 0 to |errors|
      invariant messages == Messages(errors[..k])
    {
      messages := messages + [Message(errors[k])];
    }
    assert errors[..|errors|] == errors;
    r := ErrorBody(422, "Validation error", Some(Join(messages, "; ")));
  }

  /** The detail of a validation failure is empty exactly when there are no errors; otherwise
      it starts with the first error's message, ends with the last one's, and holds every
      message plus one separator between neighbours. */
  lemma ValidationDetailShape(errors: seq<ValidationError>)
    ensures var d, ms := Join(Messages(errors), "; "), Messages(errors);
      && (d == [] <==> errors == [])
      && |d| == TotalLength(ms) + (if errors == [] then 0 else 2 * (|errors| - 1))
      && (errors != [] ==> IsPrefix(Message(errors[0]), d))
      && (errors != [] ==>
            var last := Message(errors[|errors| - 1]);
            |last| <= |d| && d[|d| - |last|..] == last)
  {
    var ms := Messages(errors);
    var d := Join(ms, "; ");
    assert |d| == TotalLength(ms) + (if errors == [] then 0 else 2 * (|errors| - 1)) by {
      JoinLength(ms, "; ");
    }
    if errors != [] {
      var last := Message(errors[|errors| - 1]);
      assert IsPrefix(Message(errors[0]), d) && |last| <= |d| && d[|d| - |last|..] == last by {
        JoinEnds(ms, "; ");
      }
      assert |Message(errors[0])| > 0;
    }
  }
}
