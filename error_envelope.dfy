/** The project-wide exception handler (backend/config/exceptions.py): every
    error the framework turns into a response is rewrapped as
    `{"error": {"code", "message", "details"}}`. */
module ErrorEnvelope {
  import opened Common

  /** The shape of a response body the framework's handler produced. */
  datatype PyValue =
    | PyStr(s: string)
    | PyDetail(s: string, code: Option<string>)   // an ErrorDetail: a str with an error code
    | PyList(items: seq<PyValue>)
    | PyDict(entries: seq<Entry>)
    | PyOther(text: string)   // a number, a boolean or None, by its `str()`

  /** One key of a dict, in the dict's order. */
  datatype Entry = Entry(key: string, value: PyValue)

  const DEFAULT_MESSAGE: string := "요청을 처리하는 중 오류가 발생했습니다."
  const UNKNOWN_ERROR: string := "UNKNOWN_ERROR"

  /** The exception class names the handler knows, each with its code. */
  const KNOWN_CODES: seq<(string, string)> := [
    ("NotFound", "RESOURCE_NOT_FOUND"),
    ("PermissionDenied", "PERMISSION_DENIED"),
    ("ValidationError", "VALIDATION_ERROR"),
    ("ParseError", "PARSE_ERROR"),
    ("AuthenticationFailed", "AUTHENTICATION_FAILED")
  ]

  /** `get_error_code`: the code for the exception's class name. */
  function ErrorCode(className: string): (code: string)
    ensures (exists k :: 0 <= k < |KNOWN_CODES| && KNOWN_CODES[k].0 == className) ==> code != UNKNOWN_ERROR
    ensures (forall k :: 0 <= k < |KNOWN_CODES| ==> KNOWN_CODES[k].0 != className) ==> code == UNKNOWN_ERROR
    ensures forall k :: 0 <= k < |KNOWN_CODES| && KNOWN_CODES[k].0 == className ==> code == KNOWN_CODES[k].1
  {
    LookupCode(KNOWN_CODES, className)
  }

  function LookupCode(table: seq<(string, string)>, name: string): (code: string)
    requires forall k :: 0 <= k < |table| ==> table[k].1 != UNKNOWN_ERROR
    requires forall i, j :: 0 <= i < j < |table| ==> table[i].0 != table[j].0
    ensures (exists k :: 0 <= k < |table| && table[k].0 == name) ==> code != UNKNOWN_ERROR
    ensures (forall k :: 0 <= k < |table| ==> table[k].0 != name) ==> code == UNKNOWN_ERROR
    ensures forall k :: 0 <= k < |table| && table[k].0 == name ==> code == table[k].1
    decreases |table|
  {
    if table == [] then UNKNOWN_ERROR
    else if table[0].0 == name then table[0].1
    else LookupCode(table[1..], name)
  }

  /** Each known code is a different length, so no two are equal. */
  lemma CodeLengths(i: nat, j: nat)
    requires i < j < |KNOWN_CODES|
    ensures |KNOWN_CODES[i].1| != |KNOWN_CODES[j].1|
  {
  }

  /** Distinct known exceptions get distinct codes, so the code names the
      error kind. */
  lemma ErrorCodeInjective(a: string, b: string)
    requires ErrorCode(a) != UNKNOWN_ERROR && a != b
    ensures ErrorCode(a) != ErrorCode(b)
  {
    var i :| 0 <= i < |KNOWN_CODES| && KNOWN_CODES[i].0 == a;
    if j :| 0 <= j < |KNOWN_CODES| && KNOWN_CODES[j].0 == b {
      if i < j {
        CodeLengths(i, j);
      } else {
        CodeLengths(j, i);
      }
    }
  }

  /** The framework's own error for a missing login (NotAuthenticated) is
      not in the table, and neither is MethodNotAllowed. */
  lemma UnlistedErrorsAreUnknown()
    ensures ErrorCode("NotAuthenticated") == UNKNOWN_ERROR
    ensures ErrorCode("MethodNotAllowed") == UNKNOWN_ERROR
    ensures ErrorCode("NotFound") == "RESOURCE_NOT_FOUND"
  {
    assert KNOWN_CODES[0].0 == "NotFound";
  }

  /** The code the handler evidently means to give. The framework's own
      handler answers Django's `Http404` (raised by `get_object_or_404`) as
      if it were its `NotFound`, so a missing object is meant to read
      `RESOURCE_NOT_FOUND` whichever of the two was raised. */
  function HandledErrorCode(className: string): (code: string)
    ensures className == "Http404" ==> code == "RESOURCE_NOT_FOUND"
    ensures className != "Http404" ==> code == ErrorCode(className)
  {
    ErrorCode(if className == "Http404" then "NotFound" else className)
  }

  /** As written, `get_error_code` looks at the raised exception's own class
      name, so the `Http404` of `get_object_or_404` is not in the table and
      comes out as `UNKNOWN_ERROR`, unlike the intended code. */
  lemma Http404UnknownAsWritten()
    ensures ErrorCode("Http404") == UNKNOWN_ERROR
    ensures HandledErrorCode("Http404") == ErrorCode("NotFound") != ErrorCode("Http404")
  {
    UnlistedErrorsAreUnknown();
  }

  /** Python's `repr` of a string, without escaping. */
  function QuoteRepr(s: string): (r: string)
    ensures |r| == |s| + 2 && r[0] == '\'' && r[|r| - 1] == '\''
  {
    "'" + s + "'"
  }

  /** `str()` of a value: a string (an ErrorDetail too) is itself,
      containers print their items' `repr`. */
  function Str(v: PyValue): (r: string)
    ensures v.PyStr? || v.PyDetail? ==> r == v.s
    ensures v.PyOther? ==> r == v.text
    ensures v.PyList? ==> |r| >= 2 && r[0] == '[' && r[|r| - 1] == ']'
    ensures v.PyDict? ==> |r| >= 2 && r[0] == '{' && r[|r| - 1] == '}'
  {
    match v
    case PyStr(s) => s
    case PyDetail(s, _) => s
    case PyOther(t) => t
    case PyList(items) => "[" + ReprItems(items) + "]"
    case PyDict(entries) => "{" + ReprEntries(entries) + "}"
  }

  /** `repr()` of a value: a string quoted, an ErrorDetail as
      `ErrorDetail(string='...', code='...')`. */
  function Repr(v: PyValue): string
    decreases v, 1
  {
    match v
    case PyStr(s) => QuoteRepr(s)
    case PyDetail(s, code) => DetailRepr(s, code)
    case PyOther(t) => t
    case PyList(items) => "[" + ReprItems(items) + "]"
    case PyDict(entries) => "{" + ReprEntries(entries) + "}"
  }

  /** `ErrorDetail.__repr__`: the string and the code by their `repr`, a
      missing code as `None`. */
  function DetailRepr(s: string, code: Option<string>): (r: string)
    ensures r == "ErrorDetail(string=" + QuoteRepr(s) + ", code=" + (if code.Some? then QuoteRepr(code.value) else "None") + ")"
  {
    var c := match code case Some(c) => QuoteRepr(c) case None => "None";
    "ErrorDetail(string=" + QuoteRepr(s) + ", code=" + c + ")"
  }

  function ReprItems(items: seq<PyValue>): string
    decreases items, 0
  {
    if items == [] then ""
    else if |items| == 1 then Repr(items[0])
    else Repr(items[0]) + ", " + ReprItems(items[1..])
  }

  function ReprEntries(entries: seq<Entry>): string
    decreases entries, 0
  {
    if entries == [] then ""
    else
      var entry := QuoteRepr(entries[0].key) + ": " + Repr(entries[0].value);
      if |entries| == 1 then entry else entry + ", " + ReprEntries(entries[1..])
  }

  /** The value under `key` in a dict's entries (the first such entry). */
  function Lookup(entries: seq<Entry>, key: string): (r: Option<PyValue>)
    ensures r.None? <==> forall k :: 0 <= k < |entries| ==> entries[k].key != key
    ensures r.Some? ==> exists k :: 0 <= k < |entries| && entries[k] == Entry(key, r.value)
    decreases |entries|
  {
    if entries == [] then None
    else if entries[0].key == key then Some(entries[0].value)
    else Lookup(entries[1..], key)
  }

  /** `get_error_message`: a dict's `detail`, else its first entry (the head
      of a non-empty list, otherwise the value itself); a string (an
      ErrorDetail is one) as is; the default message for everything else,
      an empty dict included. */
  function ErrorMessage(data: PyValue): (message: string)
    ensures data.PyStr? || data.PyDetail? ==> message == data.s
    ensures data.PyList? || data.PyOther? ==> message == DEFAULT_MESSAGE
    ensures data.PyDict? && Lookup(data.entries, "detail").Some? ==> message == Str(Lookup(data.entries, "detail").value)
    ensures data.PyDict? && data.entries == [] ==> message == DEFAULT_MESSAGE
    ensures data.PyDict? && data.entries != [] && Lookup(data.entries, "detail").None? ==>
      var first := data.entries[0].value;
      message == if first.PyList? && |first.items| > 0 then Str(first.items[0]) else Str(first)
  {
    match data
    case PyDict(entries) =>
      (match Lookup(entries, "detail")
       case Some(detail) => Str(detail)
       case None =>
         if entries == [] then DEFAULT_MESSAGE
         else
           var value := entries[0].value;
           if value.PyList? && |value.items| > 0 then Str(value.items[0]) else Str(value))
    case PyStr(s) => s
    case PyDetail(s, _) => s
    case _ => DEFAULT_MESSAGE
  }

  /** What a message can be: the default, the body when it is a string, or
      the `str()` of a value one or two levels inside the body. */
  predicate FromBody(data: PyValue, message: string) {
    || message == DEFAULT_MESSAGE
    || ((data.PyStr? || data.PyDetail?) && message == data.s)
    || (data.PyDict? && exists k :: 0 <= k < |data.entries| && InEntry(data.entries[k].value, message))
  }

  /** `message` is the `str()` of a dict value or of an item of it. */
  predicate InEntry(value: PyValue, message: string) {
    || message == Str(value)
    || (value.PyList? && exists m :: 0 <= m < |value.items| && message == Str(value.items[m]))
  }

  /** The handler never invents a message: it comes out of the body or is
      the default. */
  lemma MessageFromBody(data: PyValue)
    ensures FromBody(data, ErrorMessage(data))
  {
    if data.PyDict? {
      var message := ErrorMessage(data);
      if Lookup(data.entries, "detail").Some? {
        var k :| 0 <= k < |data.entries| && data.entries[k] == Entry("detail", Lookup(data.entries, "detail").value);
        assert message == Str(data.entries[k].value);
      } else if data.entries != [] {
        var first := data.entries[0].value;
        if first.PyList? && |first.items| > 0 {
          assert message == Str(data.entries[0].value.items[0]);
        } else {
          assert message == Str(data.entries[0].value);
        }
      }
    }
  }

  /** The rewrapped body. */
  datatype ErrorBody = ErrorBody(code: string, message: string, details: PyValue)

  /** `custom_exception_handler`: nothing when the framework's handler
      produced no response (an error it does not know, left to the server),
      else the envelope with the intended code, whose details are the original body when that is a
      dict and an empty dict otherwise. */
  function Envelope(className: string, handled: Option<PyValue>): (r: Option<ErrorBody>)
    ensures r.None? <==> handled.None?
    ensures r.Some? ==> r.value.code == HandledErrorCode(className) && r.value.message == ErrorMessage(handled.value)
    ensures r.Some? ==> r.value.details.PyDict?
    ensures r.Some? ==> (r.value.details == handled.value <==> handled.value.PyDict?)
  {
    match handled
    case None => None
    case Some(data) =>
      var details := if data.PyDict? then data else PyDict([]);
      Some(ErrorBody(HandledErrorCode(className), ErrorMessage(data), details))
  }

  /** For a dict body the envelope loses nothing: the message can be read
      again from the details it carries. */
  lemma EnvelopeKeepsBody(className: string, data: PyValue)
    requires data.PyDict?
    ensures var body := Envelope(className, Some(data)).value;
      body.details == data && ErrorMessage(body.details) == body.message
  {
  }

  /** A `detail` body, the framework's common case, gives that detail as the
      message. */
  lemma DetailBecomesMessage(className: string, detail: string, rest: seq<Entry>)
    ensures Envelope(className, Some(PyDict([Entry("detail", PyStr(detail))] + rest))).value.message == detail
  {
  }

  /** The framework's `detail` is an ErrorDetail; its message is its string. */
  lemma DetailLeafBecomesMessage(className: string, detail: string, code: Option<string>, rest: seq<Entry>)
    ensures Envelope(className, Some(PyDict([Entry("detail", PyDetail(detail, code))] + rest))).value.message == detail
  {
  }

  /** A field error nested one level down, as the serializer reports a
      missing field of a nested object, prints its leaf by the
      ErrorDetail `repr`. */
  lemma NestedDetailMessage(field: string, inner: string, s: string, code: string)
    requires field != "detail"
    ensures ErrorMessage(PyDict([Entry(field, PyDict([Entry(inner, PyList([PyDetail(s, Some(code))]))]))])) ==
      "{" + (QuoteRepr(inner) + ": " + ("[" + DetailRepr(s, Some(code)) + "]")) + "}"
  {
    var d := PyDetail(s, Some(code));
    var leaf := PyList([d]);
    var nested := PyDict([Entry(inner, leaf)]);
    var data := PyDict([Entry(field, nested)]);
    assert Lookup(data.entries, "detail").None?;
    assert ErrorMessage(data) == Str(nested);
    assert ReprItems([d]) == DetailRepr(s, Some(code));
    assert Repr(leaf) == "[" + DetailRepr(s, Some(code)) + "]";
    assert ReprEntries([Entry(inner, leaf)]) == QuoteRepr(inner) + ": " + Repr(leaf);
  }
}
