/**
 * `buildUrl`: the "original message" URL built from the message id, the
 * session key and the page's mail `<base>`, or nothing (`""`) when one of
 * them is missing.
 */
module DiagnosticUrl {
  import opened Wrappers

  const MailHost: string := "mail.google.com"

  /** What `buildUrl` reads from the document. `messageId` is the
      `data-message-id` attribute of the first element carrying one and
      `ikValue` the `data-inboxsdk-ik-value` attribute likewise (None when no
      element carries it); `baseHrefs` holds the `href` attribute of every
      `<base>` element in document order (None when it has none). */
  datatype Page = Page(messageId: Option<string>, ikValue: Option<string>, baseHrefs: seq<Option<string>>)

  /** A URL as `new URL(href)` followed by `searchParams.append` calls: the
      base href and the appended query pairs, in order. */
  datatype Url = Url(href: string, params: seq<(string, string)>)

  /** The position of the first `#` in `s`, or `|s|` when there is none. */
  function HashIndex(s: string): (k: nat)
    ensures k <= |s|
    ensures k < |s| ==> s[k] == '#'
    ensures forall i :: 0 <= i < k ==> s[i] != '#'
  {
    if s == [] then 0
    else if s[0] == '#' then 0
    else 1 + HashIndex(s[1..])
  }

  /** `s.replace('#', '')`: a string pattern replaces its first occurrence only. */
  function RemoveFirstHash(s: string): (r: string)
    ensures HashIndex(s) < |s| ==> r == s[..HashIndex(s)] + s[HashIndex(s) + 1..]
    ensures HashIndex(s) == |s| ==> r == s
  {
    if s == [] then []
    else if s[0] == '#' then s[1..]
    else
      var rest := RemoveFirstHash(s[1..]);
      assert HashIndex(s) == 1 + HashIndex(s[1..]);
      if HashIndex(s[1..]) < |s[1..]| then
        ConsSplice(s[0], s[1..], HashIndex(s[1..]));
        [s[0]] + rest
      else
        assert [s[0]] + s[1..] == s;
        [s[0]] + rest
  }

  /** Removing the element at `k` from `t` and then putting `c` in front is
      removing the element at `k + 1` from `[c] + t`. */
  lemma ConsSplice<T>(c: T, t: seq<T>, k: nat)
    requires k < |t|
    ensures [c] + (t[..k] + t[k + 1..]) == ([c] + t)[..k + 1] + ([c] + t)[k + 2..]
  {
    assert ([c] + t)[..k + 1] == [c] + t[..k];
    assert ([c] + t)[k + 2..] == t[k + 1..];
  }

  predicate OccursAt(s: string, t: string, k: nat)
  {
    k + |t| <= |s| && s[k..k + |t|] == t
  }

  /** `s.includes(t)` */
  predicate Includes(s: string, t: string)
    decreases |s|
  {
    (|t| <= |s| && s[..|t|] == t) || (|s| > 0 && Includes(s[1..], t))
  }

  /** `Includes` holds exactly when `t` occurs somewhere in `s`. */
  lemma {:induction false} IncludesSpec(s: string, t: string)
    ensures Includes(s, t) <==> exists k: nat :: OccursAt(s, t, k)
    ensures Includes(s, t) ==> |t| <= |s|
    decreases |s|
  {
    if |t| <= |s| && s[..|t|] == t {
      assert OccursAt(s, t, 0);
    }
    if |s| > 0 {
      IncludesSpec(s[1..], t);
      if Includes(s[1..], t) {
        var k: nat :| OccursAt(s[1..], t, k);
        assert s[k + 1..k + 1 + |t|] == s[1..][k..k + |t|];
        assert OccursAt(s, t, k + 1);
      }
      if exists k: nat :: OccursAt(s, t, k) {
        var k: nat :| OccursAt(s, t, k);
        if k > 0 {
          assert s[1..][k - 1..k - 1 + |t|] == s[k..k + |t|];
          assert OccursAt(s[1..], t, k - 1);
        }
      }
    } else if exists k: nat :: OccursAt(s, t, k) {
      var k: nat :| OccursAt(s, t, k);
      assert k == 0 && |t| == 0;
    }
  }

  /** `getAttribute('href')?.includes('mail.google.com')` */
  predicate IsMailBase(href: Option<string>)
  {
    href.Some? && Includes(href.value, MailHost)
  }

  /** The first `<base>` whose href names the mail host. */
  function FirstMailBase(hrefs: seq<Option<string>>): (r: Option<nat>)
    ensures r.Some? ==> r.value < |hrefs| && IsMailBase(hrefs[r.value])
    ensures r.Some? ==> forall j :: 0 <= j < r.value ==> !IsMailBase(hrefs[j])
    ensures r.None? ==> forall j :: 0 <= j < |hrefs| ==> !IsMailBase(hrefs[j])
  {
    if hrefs == [] then None
    else if IsMailBase(hrefs[0]) then Some(0)
    else match FirstMailBase(hrefs[1..])
      case None => None
      case Some(i) => Some(i + 1)
  }

  /** The message id `buildUrl` sends: the attribute without its first `#`. */
  function MessageId(page: Page): Option<string>
  {
    match page.messageId
    case None => None
    case Some(m) => Some(RemoveFirstHash(m))
  }

  /** What `buildUrl` returns; None stands for the empty string. */
  function BuiltUrl(page: Page): Option<Url>
  {
    var msgId := MessageId(page);
    if msgId.None? || msgId.value == "" || page.ikValue.None? || page.ikValue.value == "" then None
    else match FirstMailBase(page.baseHrefs)
      case None => None
      case Some(i) =>
        Some(Url(page.baseHrefs[i].value, [("ik", page.ikValue.value), ("view", "om"), ("permmsgid", msgId.value)]))
  }

  /** `buildUrl()`: the early return, the scan of the `<base>` elements that
      stops at the first match, and the three `append` calls. */
  method BuildUrl(page: Page) returns (url: Option<Url>)
    ensures url == BuiltUrl(page)
  {
    var msgId := if page.messageId.Some? then Some(RemoveFirstHash(page.messageId.value)) else None;
    var ikValue := page.ikValue;
    if msgId.None? || msgId.value == "" || ikValue.None? || ikValue.value == "" {
      return None;
    }

    var urlStr := "";
    var bases := page.baseHrefs;
    var i := 0;
    while i < |bases|
      invariant 0 <= i <= |bases|
      invariant urlStr == ""
      invariant forall j :: 0 <= j < i ==> !IsMailBase(bases[j])
    {
      if IsMailBase(bases[i]) {
        IncludesSpec(bases[i].value, MailHost);
        urlStr := bases[i].value;
        break;
      }
      i := i + 1;
    }
    if urlStr == "" {
      return None;
    }
    assert FirstMailBase(bases) == Some(i);

    var params: seq<(string, string)> := [];
    params := params + [("ik", ikValue.value)];
    params := params + [("view", "om")];
    params := params + [("permmsgid", msgId.value)];
    assert params == [("ik", ikValue.value), ("view", "om"), ("permmsgid", msgId.value)];
    return Some(Url(urlStr, params));
  }

  /** `searchParams.get(name)`: the value of the first pair with that name. */
  function Get(params: seq<(string, string)>, name: string): Option<string>
  {
    if params == [] then None
    else if params[0].0 == name then Some(params[0].1)
    else Get(params[1..], name)
  }

  /** `buildUrl` fails closed: it yields no URL exactly when the message id
      (after removing its first `#`) is missing or empty, when the session
      key is missing or empty, or when no `<base>` href contains the mail
      host. Otherwise the URL extends the first such href with the pairs
      `ik`, `view=om` and `permmsgid`, in that order, and reading those
      parameters back gives the three values it was built from. */
  lemma BuiltUrlSpec(page: Page)
    ensures BuiltUrl(page).None? <==>
      || MessageId(page).None? || MessageId(page).value == ""
      || page.ikValue.None? || page.ikValue.value == ""
      || forall j :: 0 <= j < |page.baseHrefs| ==> !IsMailBase(page.baseHrefs[j])
    ensures BuiltUrl(page).Some? ==>
      var u := BuiltUrl(page).value;
      && (exists i :: 0 <= i < |page.baseHrefs| && page.baseHrefs[i] == Some(u.href) && IsMailBase(page.baseHrefs[i])
           && forall j :: 0 <= j < i ==> !IsMailBase(page.baseHrefs[j]))
      && u.params == [("ik", page.ikValue.value), ("view", "om"), ("permmsgid", MessageId(page).value)]
      && Get(u.params, "ik") == page.ikValue
      && Get(u.params, "view") == Some("om")
      && Get(u.params, "permmsgid") == MessageId(page)
  {
    if BuiltUrl(page).Some? {
      var u := BuiltUrl(page).value;
      var i := FirstMailBase(page.baseHrefs).value;
      assert page.baseHrefs[i] == Some(u.href);
      assert u.params[1..] == [("view", "om"), ("permmsgid", MessageId(page).value)];
      assert u.params[1..][1..] == [("permmsgid", MessageId(page).value)];
      assert "ik" != "permmsgid" && "view" != "permmsgid" && "ik" != "view";
      assert Get(u.params[1..][1..], "permmsgid") == MessageId(page);
    } else if FirstMailBase(page.baseHrefs).Some? {
      var i := FirstMailBase(page.baseHrefs).value;
      assert IsMailBase(page.baseHrefs[i]);
    }
  }
}
