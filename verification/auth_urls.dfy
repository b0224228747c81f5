/**
 * The two URL computations of testdata/App.js's OAuth wiring: the redirect URI registered
 * with the identity provider (rewritten from the app's deep-link URL by runtime), and the
 * `urlOpener` hook that repairs the callback URL the system browser hands back on iOS.
 */
module AuthUrls {
  import opened Wrappers
  import opened Strings

  /** The app's own custom scheme. */
  const ExpoScheme: string := "squirtle"
  /** What a deep-link URL served by the development runtime on a local network starts with. */
  const LocalNetworkPrefix: string := "exp://1"
  /** The route the development runtime needs after its host. */
  const DevelopmentRoute: string := "/--/"

  /**
   * The redirect URI, from the URL `Linking.makeUrl()` reports: the three prefix tests
   * in order, the first that matches deciding what is appended. The input is never changed,
   * only extended.
   */
  function RedirectUrl(madeUrl: string): (r: string)
    ensures StartsWith(r, madeUrl)
    ensures |r| - |madeUrl| in {0, 1, 4}
  {
    if StartsWith(madeUrl, LocalNetworkPrefix) then madeUrl + DevelopmentRoute
    else if StartsWith(madeUrl, ExpoScheme) then madeUrl
    else madeUrl + "/"
  }

  /** Each branch of the rewrite happens exactly when its test is the first one that matches. */
  lemma RedirectUrlFirstMatch(u: string)
    ensures RedirectUrl(u) == u + DevelopmentRoute <==> StartsWith(u, LocalNetworkPrefix)
    ensures RedirectUrl(u) == u <==> !StartsWith(u, LocalNetworkPrefix) && StartsWith(u, ExpoScheme)
    ensures RedirectUrl(u) == u + "/" <==> !StartsWith(u, LocalNetworkPrefix) && !StartsWith(u, ExpoScheme)
  {
    assert |u + DevelopmentRoute| == |u| + 4 && |u + "/"| == |u| + 1;
  }

  /**
   * The local-network test is a literal prefix, not a port or address check: a development
   * URL on `localhost`, or on a LAN address that starts with another digit, falls through to
   * the wide-area branch.
   */
  lemma RedirectUrlExamples()
    ensures RedirectUrl("exp://192.168.1.5:19000") == "exp://192.168.1.5:19000/--/"
    ensures RedirectUrl("squirtle://") == "squirtle://"
    ensures RedirectUrl("https://expo.io/@user/app") == "https://expo.io/@user/app/"
    ensures RedirectUrl("exp://10.0.0.2:19000") == "exp://10.0.0.2:19000/--/"
    ensures RedirectUrl("exp://localhost:19000") == "exp://localhost:19000/"
    ensures RedirectUrl("exp://2.0.0.1:19000") == "exp://2.0.0.1:19000/"
  {
    assert "squirtle://"[..7][0] != LocalNetworkPrefix[0];
    assert "exp://localhost:19000"[..7][6] != LocalNetworkPrefix[6];
    assert "exp://localhost:19000"[..8][0] != ExpoScheme[0];
    assert "exp://2.0.0.1:19000"[..7][6] != LocalNetworkPrefix[6];
    assert "exp://2.0.0.1:19000"[..8][0] != ExpoScheme[0];
  }

  // ---------------------------------------------------------------------------------------
  // JavaScript's String.prototype.replace with a string pattern

  /** `s.indexOf(pat, k)`: the first index at or after `k` where `pat` occurs. */
  function IndexFrom(s: string, pat: string, k: nat): (r: Option<nat>)
    ensures r.Some? ==> k <= r.value && OccursAt(s, pat, r.value)
    ensures r.Some? ==> forall j :: k <= j < r.value ==> !OccursAt(s, pat, j)
    ensures r.None? ==> forall j :: k <= j ==> !OccursAt(s, pat, j)
    decreases |s| - k
  {
    if k + |pat| > |s| then None
    else if s[k..k + |pat|] == pat then Some(k)
    else IndexFrom(s, pat, k + 1)
  }

  /**
   * `s.replace(pat, rep)` with a replacement that holds no `$` (so no `$&`, `$$`, `` $` `` or
   * `$'` substitution pattern): only the first occurrence of `pat` is replaced, by `rep`.
   */
  function ReplaceFirst(s: string, pat: string, rep: string): (r: string)
    requires '$' !in rep
    ensures (forall j :: !OccursAt(s, pat, j)) ==> r == s
    ensures (exists j :: OccursAt(s, pat, j)) ==> |r| == |s| - |pat| + |rep|
  {
    match IndexFrom(s, pat, 0)
    case None => s
    case Some(i) => s[..i] + rep + s[i + |pat|..]
  }

  const MalformedSeparator: string := ":///?"
  const Separator: string := "://?"

  /** The repair applied to the callback URL: the first `:///?` becomes `://?`. */
  function FixCallbackUrl(url: string): (r: string)
    ensures r == url || |r| == |url| - 1
  {
    assert '$' !in Separator;
    ReplaceFirst(url, MalformedSeparator, Separator)
  }

  /** What `WebBrowser.openAuthSessionAsync` resolves to: its `type` and its `url`. */
  datatype AuthSessionResult = AuthSessionResult(kind: string, url: string)

  /**
   * The `urlOpener` hook after the browser session has finished: on iOS and a successful
   * session it dismisses the browser and opens the repaired URL, which is returned here;
   * in every other case it returns nothing.
   */
  function UrlOpener(res: AuthSessionResult, os: string): (target: Option<string>)
    ensures target.Some? <==> res.kind == "success" && os == "ios"
    ensures target.Some? ==> target.value == FixCallbackUrl(res.url)
  {
    if res.kind == "success" && os == "ios" then Some(FixCallbackUrl(res.url)) else None
  }

  /** A URL without the malformed separator is left exactly as it is, and only such a URL. */
  lemma FixLeavesWellFormedUrl(u: string)
    ensures FixCallbackUrl(u) == u <==> forall j :: !OccursAt(u, MalformedSeparator, j)
  {
    match IndexFrom(u, MalformedSeparator, 0)
    case None =>
    case Some(i) =>
      assert |FixCallbackUrl(u)| == |u| - 1;
  }

  /**
   * With the malformed separator first at `i`, the repair replaces those five characters
   * by the four of the separator and keeps everything before and after them.
   */
  lemma FixReplacesFirstOnly(u: string, i: nat)
    requires OccursAt(u, MalformedSeparator, i)
    requires forall j :: 0 <= j < i ==> !OccursAt(u, MalformedSeparator, j)
    ensures FixCallbackUrl(u) == u[..i] + Separator + u[i + 5..]
  {
    var r := IndexFrom(u, MalformedSeparator, 0);
    assert r.Some?;
    assert r.value == i;
  }

  /** One differing character is enough to rule out an occurrence. */
  lemma MismatchAt(s: string, pat: string, j: nat, k: nat)
    requires k < |pat| && j + k < |s| && s[j + k] != pat[k]
    ensures !OccursAt(s, pat, j)
  {
    if j + |pat| <= |s| {
      assert s[j..j + |pat|][k] == s[j + k];
    }
  }

  /**
   * Repairing twice is repairing once when the URL holds the malformed separator at most
   * once: the repair never creates a new occurrence.
   */
  lemma FixIdempotentOnSingleOccurrence(u: string)
    requires forall j, k :: OccursAt(u, MalformedSeparator, j) && OccursAt(u, MalformedSeparator, k) ==> j == k
    ensures FixCallbackUrl(FixCallbackUrl(u)) == FixCallbackUrl(u)
  {
    var m := MalformedSeparator;
    match IndexFrom(u, m, 0)
    case None =>
    case Some(i) =>
      var v := FixCallbackUrl(u);
      assert v == u[..i] + Separator + u[i + 5..];
      assert forall k :: 0 <= k < i ==> v[k] == u[k];
      assert forall k :: i + 4 <= k < |v| ==> v[k] == u[k + 1];
      forall j: nat
        ensures !OccursAt(v, m, j)
      {
        if j + 5 > |v| {
        } else if j + 5 <= i {
          assert !OccursAt(u, m, j);
          assert v[j..j + 5] == u[j..j + 5];
        } else if j < i {
          assert v[i] == ':';
          MismatchAt(v, m, j, i - j);
        } else if j == i {
          assert v[i + 3] == '?';
          MismatchAt(v, m, j, 3);
        } else if j < i + 4 {
          assert v[j] != ':';
          MismatchAt(v, m, j, 0);
        } else {
          assert OccursAt(u, m, i);
          assert !OccursAt(u, m, j + 1);
          assert v[j..j + 5] == u[j + 1..j + 6];
          assert !OccursAt(v, m, j);
        }
      }
      FixLeavesWellFormedUrl(v);
  }

  /**
   * The repair of a URL `p :///? q` in which the malformed separator does not occur before
   * the one after `p`: that one is replaced, `p` and `q` are kept.
   */
  lemma FixAt(p: string, q: string)
    requires forall j :: 0 <= j < |p| ==> !OccursAt(p + MalformedSeparator + q, MalformedSeparator, j)
    ensures FixCallbackUrl(p + MalformedSeparator + q) == p + Separator + q
  {
    var u := p + MalformedSeparator + q;
    var i := |p|;
    assert u[i..i + 5] == MalformedSeparator;
    FixReplacesFirstOnly(u, i);
    assert u[..i] == p;
    assert u[i + 5..] == q;
  }

  /**
   * A callback URL `scheme:///?query`, whose scheme has no colon, comes back as
   * `scheme://?query` with the scheme and the query untouched.
   */
  lemma FixCallbackWithScheme(scheme: string, query: string)
    requires ':' !in scheme
    ensures FixCallbackUrl(scheme + MalformedSeparator + query) == scheme + Separator + query
  {
    var u := scheme + MalformedSeparator + query;
    forall j | 0 <= j < |scheme|
      ensures !OccursAt(u, MalformedSeparator, j)
    {
      assert u[j] == scheme[j];
      MismatchAt(u, MalformedSeparator, j, 0);
    }
    FixAt(scheme, query);
  }

  /**
   * A URL holding the malformed separator twice, as in `a:///?b:///?`, is changed again by
   * a second repair: the repair is not idempotent on every input.
   */
  lemma FixNotIdempotent(scheme: string, query: string)
    requires ':' !in scheme && ':' !in query
    ensures FixCallbackUrl(scheme + MalformedSeparator + (query + MalformedSeparator))
            == scheme + Separator + (query + MalformedSeparator)
    ensures FixCallbackUrl(scheme + Separator + query + MalformedSeparator)
            == scheme + Separator + query + Separator
  {
    FixCallbackWithScheme(scheme, query + MalformedSeparator);
    var p := scheme + Separator + query;
    var u := p + MalformedSeparator;
    var i := |scheme|;
    assert forall k :: 0 <= k < i ==> u[k] == scheme[k];
    assert forall k :: i + 4 <= k < |p| ==> u[k] == query[k - i - 4];
    AppendEmpty(u);
    forall j | 0 <= j < |p|
      ensures !OccursAt(u + "", MalformedSeparator, j)
    {
      if j == i {
        MismatchAt(u, MalformedSeparator, j, 3);
      } else if j < i {
        assert u[j] != ':';
        MismatchAt(u, MalformedSeparator, j, 0);
      } else if j < i + 4 {
        assert u[j] == Separator[j - i];
        MismatchAt(u, MalformedSeparator, j, 0);
      } else {
        assert u[j] == query[j - i - 4];
        MismatchAt(u, MalformedSeparator, j, 0);
      }
    }
    FixAt(p, "");
    AppendEmpty(p + Separator);
  }

  /** Only a successful session on iOS opens a URL, and it opens the repaired one. */
  lemma UrlOpenerExamples()
    ensures UrlOpener(AuthSessionResult("success", ExpoScheme + MalformedSeparator + "code=abc"), "ios")
            == Some(ExpoScheme + Separator + "code=abc")
    ensures UrlOpener(AuthSessionResult("success", ExpoScheme + MalformedSeparator + "code=abc"), "android") == None
    ensures UrlOpener(AuthSessionResult("dismiss", ExpoScheme + MalformedSeparator + "code=abc"), "ios") == None
  {
    FixCallbackWithScheme(ExpoScheme, "code=abc");
  }
}
