/** The `required_params` view decorator: the parameters a request lacks,
    and the 400 response naming them. */
module Decorators {
  import opened Wrappers
  import opened Strings

  /** The parameter names a request carries: in its query string
      (`request.query_params`) and in its body (`request.data`). */
  datatype Request = Request(queryParams: set<string>, data: set<string>)

  /** What the wrapped view does with a request: answer 400 itself, or
      call the view with the same arguments. */
  datatype Outcome = BadRequest(status: int, success: bool, message: string) | CallView

  const HttpBadRequest: int := 400

  /** `str.lower()` on ASCII letters; other characters are kept. */
  function LowerChar(c: char): char {
    if 'A' <= c <= 'Z' then (c as int + 32) as char else c
  }

  function Lower(s: string): (r: string)
    ensures |r| == |s|
    ensures forall k :: 0 <= k < |s| ==> r[k] == LowerChar(s[k])
  {
    seq(|s|, k requires 0 <= k < |s| => LowerChar(s[k]))
  }

  /** The parameters the check reads: the query string for a 'get' method
      in any letter case, the body for anything else. */
  function Source(httpMethod: string, request: Request): set<string> {
    if Lower(httpMethod) == "get" then request.queryParams else request.data
  }

  /** `[param for param in params if param not in data]`. */
  function MissingParams(params: seq<string>, present: set<string>): (missing: seq<string>)
    ensures |missing| <= |params|
    ensures forall k :: 0 <= k < |missing| ==> missing[k] !in present
  {
    if params == [] then []
    else (if params[0] in present then [] else [params[0]]) + MissingParams(params[1..], present)
  }

  /** A name is reported missing exactly when it is required and absent. */
  lemma {:induction false} MissingParamsMembers(params: seq<string>, present: set<string>, p: string)
    ensures p in MissingParams(params, present) <==> p in params && p !in present
  {
    if params != [] {
      MissingParamsMembers(params[1..], present, p);
      assert p in params <==> p == params[0] || p in params[1..];
    }
  }

  /** Nothing is missing exactly when every required name is present. */
  lemma NoneMissing(params: seq<string>, present: set<string>)
    ensures MissingParams(params, present) == [] <==> forall p :: p in params ==> p in present
  {
    var missing := MissingParams(params, present);
    if missing != [] {
      MissingParamsMembers(params, present, missing[0]);
    } else {
      forall p | p in params
        ensures p in present
      {
        MissingParamsMembers(params, present, p);
      }
    }
  }

  /** Missing parameters keep their declaration order: the list of a
      concatenation is the concatenation of the lists. */
  lemma {:induction false} MissingParamsAppend(a: seq<string>, b: seq<string>, present: set<string>)
    ensures MissingParams(a + b, present) == MissingParams(a, present) + MissingParams(b, present)
  {
    if a != [] {
      MissingParamsAppend(a[1..], b, present);
      var head := if a[0] in present then [] else [a[0]];
      assert (a + b)[1..] == a[1..] + b;
      assert MissingParams(a + b, present) == head + MissingParams(a[1..] + b, present);
      assert MissingParams(a, present) == head + MissingParams(a[1..], present);
      assert head + MissingParams(a[1..] + b, present)
        == head + (MissingParams(a[1..], present) + MissingParams(b, present))
        == (head + MissingParams(a[1..], present)) + MissingParams(b, present);
    } else {
      assert a + b == b;
    }
  }

  /** The message of the 400 response. */
  function MissingMessage(missing: seq<string>): string {
    "missing " + Join(',', missing) + " in request"
  }

  /** `required_params(method, params)` applied to a request. `None` is the
      `params=None` case, where the call returns `[]` rather than a
      decorator. */
  function RequiredParams(httpMethod: string, params: Option<seq<string>>, request: Request): (r: Option<Outcome>)
    ensures r.None? <==> params.None?
    ensures r == Some(CallView) <==> params.Some? && forall p :: p in params.value ==> p in Source(httpMethod, request)
    ensures r.Some? && r.value.BadRequest? ==>
      && r.value.status == HttpBadRequest
      && !r.value.success
      && r.value.message == MissingMessage(MissingParams(params.value, Source(httpMethod, request)))
  {
    match params
    case None => None
    case Some(ps) =>
      var missing := MissingParams(ps, Source(httpMethod, request));
      NoneMissing(ps, Source(httpMethod, request));
      if missing != [] then Some(BadRequest(HttpBadRequest, false, MissingMessage(missing)))
      else Some(CallView)
  }

  /** The message names exactly the missing parameters, in order, when no
      parameter name contains ','. */
  lemma MissingMessageRoundTrip(missing: seq<string>)
    requires missing != []
    requires forall k :: 0 <= k < |missing| ==> ',' !in missing[k]
    ensures var m := MissingMessage(missing);
      && |m| >= 19
      && m[..8] == "missing "
      && m[|m| - 11..] == " in request"
      && Split(m[8..|m| - 11], ',') == missing
  {
    var body := Join(',', missing);
    var m := MissingMessage(missing);
    assert m[8..|m| - 11] == body;
    SplitJoin(missing, ',');
  }

  /** The method is compared without regard to letter case. */
  lemma MethodCaseInsensitive(params: Option<seq<string>>, request: Request)
    ensures RequiredParams("GET", params, request) == RequiredParams("get", params, request)
    ensures Source("GET", request) == request.queryParams
    ensures Source("POST", request) == request.data
  {
    assert Lower("GET") == "get";
    assert Lower("POST") != "get" by {
      assert Lower("POST")[0] == 'p';
    }
  }
}
