/** The login error vocabulary: four error kinds, their stable string identifiers,
    the decoder that drops unknown identifiers, the redirect query string built from
    a list of errors, and the form field each error belongs to. */
module Errors {
  import opened Wrappers
  import Strings

  datatype LoginError = UsernameMissing | UsernameNotFound | PasswordMissing | PasswordIncorrect

  /** The stable identifier of an error, as written by its `Display` implementation. */
  function Display(e: LoginError): (id: string)
    ensures |id| > 0
    ensures '&' !in id && '=' !in id
  {
    match e
    case UsernameMissing => "username_missing"
    case UsernameNotFound => "username_not_found"
    case PasswordMissing => "password_missing"
    case PasswordIncorrect => "password_incorrect"
  }

  /** Decodes one identifier; anything that is not the identifier of some error gives `None`. */
  function FromString(s: string): (r: Option<LoginError>)
    ensures r.Some? ==> Display(r.value) == s
    ensures r.None? ==> forall e :: Display(e) != s
  {
    if s == "username_missing" then Some(UsernameMissing)
    else if s == "username_not_found" then Some(UsernameNotFound)
    else if s == "password_missing" then Some(PasswordMissing)
    else if s == "password_incorrect" then Some(PasswordIncorrect)
    else None
  }

  /** Decodes each identifier in turn, silently dropping the unknown ones. */
  function FromStrings(ss: seq<string>): (r: seq<LoginError>)
    ensures |r| <= |ss|
    ensures forall i :: 0 <= i < |r| ==> Display(r[i]) in ss
  {
    if |ss| == 0 then []
    else match FromString(ss[0])
      case Some(e) => [e] + FromStrings(ss[1..])
      case None => FromStrings(ss[1..])
  }

  /** The identifiers of `es`, in order. */
  function Identifiers(es: seq<LoginError>): (ids: seq<string>)
    ensures |ids| == |es|
    ensures forall i :: 0 <= i < |es| ==> ids[i] == Display(es[i])
  {
    if |es| == 0 then [] else [Display(es[0])] + Identifiers(es[1..])
  }

  const QueryKey: string := "error="

  /** The `error=<id>` query segment of each error, in order. */
  function QuerySegments(es: seq<LoginError>): (segs: seq<string>)
    ensures |segs| == |es|
    ensures forall i :: 0 <= i < |es| ==> segs[i] == QueryKey + Display(es[i])
  {
    if |es| == 0 then [] else [QueryKey + Display(es[0])] + QuerySegments(es[1..])
  }

  /** The query string carrying `es` across a redirect. */
  function ToQuery(es: seq<LoginError>): (q: string)
    ensures q == "" <==> |es| == 0
  {
    Strings.Join(QuerySegments(es), '&')
  }

  /** The form field an error is reported against. */
  function GetField(e: LoginError): (field: string)
    ensures field == "username" <==> e.UsernameMissing? || e.UsernameNotFound?
    ensures field == "password" <==> e.PasswordMissing? || e.PasswordIncorrect?
  {
    match e
    case UsernameMissing | UsernameNotFound => "username"
    case PasswordMissing | PasswordIncorrect => "password"
  }

  /** The value of each `error=` segment; segments without that key are ignored. */
  function QueryValues(segs: seq<string>): seq<string>
  {
    if |segs| == 0 then []
    else if Strings.HasPrefix(segs[0], QueryKey) then [segs[0][|QueryKey|..]] + QueryValues(segs[1..])
    else QueryValues(segs[1..])
  }

  /** Reference reader of a query string written by `ToQuery`: split on `&`,
      keep the values of the `error=` segments and decode them. */
  function ParseQuery(q: string): seq<LoginError>
  {
    FromStrings(QueryValues(Strings.Split(q, '&')))
  }

  /** The four identifiers are pairwise different. */
  lemma DisplayInjective(a: LoginError, b: LoginError)
    ensures Display(a) == Display(b) ==> a == b
  {
  }

  /** Decoding inverts encoding for every error. */
  lemma FromStringDisplay(e: LoginError)
    ensures FromString(Display(e)) == Some(e)
  {
  }

  /** Decoding distributes over concatenation, so the kept errors keep their input order. */
  lemma {:induction false} FromStringsAppend(a: seq<string>, b: seq<string>)
    ensures FromStrings(a + b) == FromStrings(a) + FromStrings(b)
  {
    if |a| == 0 {
      assert a + b == b;
    } else {
      assert (a + b)[0] == a[0];
      assert (a + b)[1..] == a[1..] + b;
      FromStringsAppend(a[1..], b);
    }
  }

  /** A list of unknown identifiers decodes to nothing. */
  lemma {:induction false} FromStringsUnknown(junk: seq<string>)
    requires forall i :: 0 <= i < |junk| ==> FromString(junk[i]).None?
    ensures FromStrings(junk) == []
  {
    if |junk| > 0 {
      assert FromString(junk[0]).None?;
      FromStringsUnknown(junk[1..]);
    }
  }

  /** Decoding the identifiers of any error list gives that list back. */
  lemma {:induction false} FromStringsIdentifiers(es: seq<LoginError>)
    ensures FromStrings(Identifiers(es)) == es
  {
    if |es| > 0 {
      var ids := Identifiers(es);
      assert ids[1..] == Identifiers(es[1..]);
      FromStringDisplay(es[0]);
      FromStringsIdentifiers(es[1..]);
      assert es == [es[0]] + es[1..];
    }
  }

  /** Unknown identifiers placed before, between or after the identifiers of two
      error lists are ignored: decoding gives the two lists back, joined. */
  lemma {:induction false} FromStringsIgnoresUnknown(es1: seq<LoginError>, es2: seq<LoginError>,
                                                     before: seq<string>, between: seq<string>, after: seq<string>)
    requires forall i :: 0 <= i < |before| ==> FromString(before[i]).None?
    requires forall i :: 0 <= i < |between| ==> FromString(between[i]).None?
    requires forall i :: 0 <= i < |after| ==> FromString(after[i]).None?
    ensures FromStrings(before + Identifiers(es1) + between + Identifiers(es2) + after) == es1 + es2
  {
    var x1 := before + Identifiers(es1);
    FromStringsAppend(before, Identifiers(es1));
    FromStringsUnknown(before);
    FromStringsIdentifiers(es1);
    assert FromStrings(x1) == es1;
    var x2 := x1 + between;
    FromStringsAppend(x1, between);
    FromStringsUnknown(between);
    assert FromStrings(x2) == es1;
    var x3 := x2 + Identifiers(es2);
    FromStringsAppend(x2, Identifiers(es2));
    FromStringsIdentifiers(es2);
    assert FromStrings(x3) == es1 + es2;
    FromStringsAppend(x3, after);
    FromStringsUnknown(after);
    assert FromStrings(x3 + after) == es1 + es2 + [];
  }

  lemma {:induction false} SegmentsSeparatorFree(es: seq<LoginError>)
    ensures forall i :: 0 <= i < |es| ==> '&' !in QuerySegments(es)[i]
  {
    var segs := QuerySegments(es);
    forall i | 0 <= i < |es|
      ensures '&' !in segs[i]
    {
      var id := Display(es[i]);
      assert segs[i] == QueryKey + id;
      assert forall k :: 0 <= k < |id| ==> (QueryKey + id)[|QueryKey| + k] == id[k];
    }
  }

  /** A query for n >= 1 errors has n `error=` segments separated by exactly n - 1 `&`. */
  lemma {:induction false} ToQuerySeparators(es: seq<LoginError>)
    requires |es| >= 1
    ensures Strings.Count(ToQuery(es), '&') == |es| - 1
    ensures Strings.Split(ToQuery(es), '&') == QuerySegments(es)
  {
    var segs := QuerySegments(es);
    SegmentsSeparatorFree(es);
    Strings.JoinCount(segs, '&');
    Strings.SplitJoin(segs, '&');
  }

  lemma {:induction false} QueryValuesSegments(es: seq<LoginError>)
    ensures QueryValues(QuerySegments(es)) == Identifiers(es)
  {
    if |es| > 0 {
      var segs := QuerySegments(es);
      assert segs[0] == QueryKey + Display(es[0]);
      assert segs[0][..|QueryKey|] == QueryKey;
      assert segs[0][|QueryKey|..] == Display(es[0]);
      assert segs[1..] == QuerySegments(es[1..]);
      QueryValuesSegments(es[1..]);
    }
  }

  /** Reading back a query built by `ToQuery` recovers the errors, in order. */
  lemma {:induction false} ParseQueryToQuery(es: seq<LoginError>)
    ensures ParseQuery(ToQuery(es)) == es
  {
    if |es| == 0 {
      assert Strings.Split("", '&') == [""];
      assert !Strings.HasPrefix("", QueryKey);
    } else {
      ToQuerySeparators(es);
      QueryValuesSegments(es);
      FromStringsIdentifiers(es);
    }
  }
}
