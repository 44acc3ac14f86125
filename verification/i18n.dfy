/** The message catalogue handed to the page templates: the fixed English string
    table, and the message of each reported error keyed by its form field. */
module I18n {
  import Errors

  datatype I18n = I18n(strings: map<string, string>, errors: map<Errors.LoginError, string>)

  const EnStrings: map<string, string> := map[
    "locale" := "en",
    "login_title" := "Login",
    "login_subtitle" := "You need to login to access this page:",
    "username_label" := "Username:",
    "username_placeholder" := "username",
    "password_label" := "Password:",
    "password_placeholder" := "password",
    "login_button" := "Login"
  ]

  const EnErrors: map<Errors.LoginError, string> := map[
    Errors.UsernameMissing := "You must enter a username",
    Errors.UsernameNotFound := "Could not find a user with that username",
    Errors.PasswordMissing := "You must enter a password",
    Errors.PasswordIncorrect := "Incorrect password"
  ]

  /** Every error kind has a message. */
  ghost predicate Complete(i: I18n)
  {
    forall e: Errors.LoginError :: e in i.errors
  }

  /** `I18n::new`: only the English locale exists; any other locale panics. */
  function New(locale: string): (r: I18n)
    requires locale == "en"
    ensures Complete(r)
    ensures r.strings.Keys == {"locale", "login_title", "login_subtitle", "username_label",
                               "username_placeholder", "password_label",
                               "password_placeholder", "login_button"}
    ensures r.strings["locale"] == locale
  {
    EnErrorsComplete();
    I18n(EnStrings, EnErrors)
  }

  lemma EnErrorsComplete()
    ensures forall e: Errors.LoginError :: e in EnErrors
  {
    forall e: Errors.LoginError
      ensures e in EnErrors
    {
      match e
      case UsernameMissing =>
      case UsernameNotFound =>
      case PasswordMissing =>
      case PasswordIncorrect =>
    }
  }

  /** `k` is the last position in `es` whose error reports against `field`. */
  ghost predicate LastFor(es: seq<Errors.LoginError>, field: string, k: int)
  {
    && 0 <= k < |es|
    && Errors.GetField(es[k]) == field
    && forall j :: k < j < |es| ==> Errors.GetField(es[j]) != field
  }

  /** The field -> message map collected from `es` in order; a later error replaces
      the message of an earlier one on the same field. */
  function ErrorMessages(i: I18n, es: seq<Errors.LoginError>): map<string, string>
    requires forall k :: 0 <= k < |es| ==> es[k] in i.errors
  {
    if |es| == 0 then map[]
    else
      var last := es[|es| - 1];
      ErrorMessages(i, es[..|es| - 1])[Errors.GetField(last) := i.errors[last]]
  }

  /** The fields with a message are exactly the fields of the given errors. */
  lemma {:induction false} ErrorMessagesKeys(i: I18n, es: seq<Errors.LoginError>)
    requires forall k :: 0 <= k < |es| ==> es[k] in i.errors
    ensures forall f :: f in ErrorMessages(i, es) <==>
      exists k :: 0 <= k < |es| && Errors.GetField(es[k]) == f
  {
    if |es| > 0 {
      var init := es[..|es| - 1];
      ErrorMessagesKeys(i, init);
      forall f
        ensures f in ErrorMessages(i, es) <==>
          exists k :: 0 <= k < |es| && Errors.GetField(es[k]) == f
      {
        if f in ErrorMessages(i, init) {
          var k :| 0 <= k < |init| && Errors.GetField(init[k]) == f;
          assert es[k] == init[k];
        }
        if exists k :: 0 <= k < |es| && Errors.GetField(es[k]) == f {
          var k :| 0 <= k < |es| && Errors.GetField(es[k]) == f;
          if k < |init| {
            assert init[k] == es[k];
          }
        }
      }
    }
  }

  /** Each field's message is that of the last error on that field. */
  lemma {:induction false} ErrorMessagesLastWins(i: I18n, es: seq<Errors.LoginError>)
    requires forall k :: 0 <= k < |es| ==> es[k] in i.errors
    ensures forall f :: f in ErrorMessages(i, es) ==>
      exists k :: LastFor(es, f, k) && ErrorMessages(i, es)[f] == i.errors[es[k]]
  {
    if |es| > 0 {
      var init := es[..|es| - 1];
      var last := es[|es| - 1];
      var m0 := ErrorMessages(i, init);
      var m := ErrorMessages(i, es);
      ErrorMessagesLastWins(i, init);
      forall f | f in m
        ensures exists k :: LastFor(es, f, k) && m[f] == i.errors[es[k]]
      {
        if f == Errors.GetField(last) {
          assert LastFor(es, f, |es| - 1);
        } else {
          var k :| LastFor(init, f, k) && m0[f] == i.errors[init[k]];
          assert LastFor(es, f, k);
        }
      }
    }
  }

  /** `get_catalog`: the string table under "i18n" and the error messages under
      "errors", one per field that some given error reports against, the last such
      error's message winning. */
  function GetCatalog(i: I18n, es: seq<Errors.LoginError>): (r: map<string, map<string, string>>)
    requires forall k :: 0 <= k < |es| ==> es[k] in i.errors
    ensures r.Keys == {"i18n", "errors"}
    ensures r["i18n"] == i.strings
    ensures forall f :: f in r["errors"] <==>
      exists k :: 0 <= k < |es| && Errors.GetField(es[k]) == f
    ensures forall f :: f in r["errors"] ==>
      exists k :: LastFor(es, f, k) && r["errors"][f] == i.errors[es[k]]
  {
    ErrorMessagesKeys(i, es);
    ErrorMessagesLastWins(i, es);
    map["i18n" := i.strings, "errors" := ErrorMessages(i, es)]
  }

  /** The error keys are form fields, and there are messages exactly when errors were given. */
  lemma {:induction false} ErrorMessagesFields(i: I18n, es: seq<Errors.LoginError>)
    requires forall k :: 0 <= k < |es| ==> es[k] in i.errors
    ensures ErrorMessages(i, es).Keys <= {"username", "password"}
    ensures ErrorMessages(i, es) == map[] <==> |es| == 0
  {
    ErrorMessagesKeys(i, es);
    if |es| > 0 {
      assert Errors.GetField(es[0]) in ErrorMessages(i, es);
    }
  }

  /** For the English catalogue the message lookup succeeds for every error list, and
      the "i18n" entry is the fixed eight-entry table. */
  lemma {:induction false} EnglishCatalog(es: seq<Errors.LoginError>)
    ensures forall k :: 0 <= k < |es| ==> es[k] in New("en").errors
    ensures GetCatalog(New("en"), es)["i18n"] == EnStrings
    ensures |EnStrings| == 8
  {
    var keys := New("en").strings.Keys;
    assert |keys| == 8;
  }

  /** Two errors on the same field: the later one's message is shown. */
  lemma LaterErrorWins(i: I18n, a: Errors.LoginError, b: Errors.LoginError)
    requires a in i.errors && b in i.errors
    requires Errors.GetField(a) == Errors.GetField(b)
    ensures ErrorMessages(i, [a, b]) == map[Errors.GetField(b) := i.errors[b]]
  {
    assert [a, b][..1] == [a];
    assert [a][..0] == [];
    var f := Errors.GetField(b);
    assert ErrorMessages(i, [a]) == map[f := i.errors[a]];
    assert ErrorMessages(i, [a, b]) == map[f := i.errors[a]][f := i.errors[b]];
  }
}
