/** Deep links `hymnarium://hymn?number=N` (or the `adventisthymnarium`
    scheme): the app's `handleDeepLink`, whose only effect is to set the
    hymn number to open. Both app entry points carry the same rule. */
module DeepLinks {
  import opened Wrappers
  import opened Text

  datatype QueryItem = QueryItem(name: string, value: Option<string>)

  /** What `URLComponents` reports for the URL. */
  datatype Components = Components(host: Option<string>, queryItems: Option<seq<QueryItem>>)

  /** An opened URL: its scheme and host as `URL` reports them, and its
      components, absent when `URLComponents` cannot be built. */
  datatype Url = Url(scheme: Option<string>, host: Option<string>, components: Option<Components>)

  predicate KnownScheme(u: Url) {
    u.scheme == Some("hymnarium") || u.scheme == Some("adventisthymnarium")
  }

  /** `queryItems?.first(where: { $0.name == "number" })?.value`. */
  function NumberItem(items: seq<QueryItem>): Option<string>
    decreases |items|
  {
    if |items| == 0 then None
    else if items[0].name == "number" then items[0].value
    else NumberItem(items[1..])
  }

  /** The value is that of the first item named "number", and there is none
      without such an item. */
  lemma {:induction false} NumberItemSpec(items: seq<QueryItem>)
    ensures (forall i :: 0 <= i < |items| ==> items[i].name != "number") ==> NumberItem(items).None?
    ensures forall i :: (0 <= i < |items| && items[i].name == "number" &&
                         (forall j :: 0 <= j < i ==> items[j].name != "number")) ==> NumberItem(items) == items[i].value
    decreases |items|
  {
    if |items| > 0 && items[0].name != "number" {
      NumberItemSpec(items[1..]);
      assert forall i :: 1 <= i < |items| ==> items[i] == items[1..][i - 1];
    }
  }

  /** The hymn number a link asks for, when it is accepted: a known scheme,
      components whose host is exactly "hymn", a first "number" query item
      with a value, and that value reads as an `Int`. */
  function LinkedNumber(u: Url): Option<int> {
    if KnownScheme(u) && u.host.None? then None
    else if !KnownScheme(u) then None
    else match u.components
      case None => None
      case Some(c) =>
        if c.host != Some("hymn") || c.queryItems.None? then None
        else match NumberItem(c.queryItems.value)
          case None => None
          case Some(v) => SwiftInt(v)
  }

  /** `handleDeepLink`: the new value of `deepLinkHymnNumber`; an accepted
      link sets it, anything else leaves it as it was. */
  function HandleDeepLink(u: Url, current: Option<int>): (r: Option<int>)
    ensures LinkedNumber(u).Some? ==> r == LinkedNumber(u)
    ensures LinkedNumber(u).None? ==> r == current
    ensures !KnownScheme(u) ==> r == current
    ensures KnownScheme(u) && u.host.None? ==> r == current
  {
    match LinkedNumber(u)
    case Some(n) => Some(n)
    case None => current
  }

  /** A link is accepted with number `n` exactly when every guard passes. */
  lemma LinkedNumberSpec(u: Url, n: int)
    ensures LinkedNumber(u) == Some(n) <==>
            && KnownScheme(u) && u.host.Some?
            && u.components.Some? && u.components.value.host == Some("hymn")
            && u.components.value.queryItems.Some?
            && NumberItem(u.components.value.queryItems.value).Some?
            && SwiftInt(NumberItem(u.components.value.queryItems.value).value) == Some(n)
  {
    if KnownScheme(u) && u.host.Some? && u.components.Some? {
      var c := u.components.value;
      if c.host == Some("hymn") && c.queryItems.Some? {
        assert LinkedNumber(u) == match NumberItem(c.queryItems.value) case None => None case Some(v) => SwiftInt(v);
      }
    }
  }

  /** Only the first "number" item is consulted: items after it never
      change the outcome. */
  lemma {:induction false} LaterItemsIgnored(items: seq<QueryItem>, later: seq<QueryItem>)
    requires exists i :: 0 <= i < |items| && items[i].name == "number"
    ensures NumberItem(items + later) == NumberItem(items)
    decreases |items|
  {
    var all := items + later;
    assert all[0] == items[0];
    if items[0].name != "number" {
      var i :| 0 <= i < |items| && items[i].name == "number";
      assert items[1..][i - 1] == items[i];
      LaterItemsIgnored(items[1..], later);
      assert all[1..] == items[1..] + later;
    }
  }

  /** The canonical link for a hymn. */
  function HymnLink(n: int): Url {
    Url(Some("hymnarium"), Some("hymn"),
        Some(Components(Some("hymn"), Some([QueryItem("number", Some(IntToString(n)))]))))
  }

  /** The canonical link opens the hymn it names. */
  lemma HymnLinkOpens(n: int, current: Option<int>)
    requires IntMin <= n <= IntMax
    ensures HandleDeepLink(HymnLink(n), current) == Some(n)
  {
    SwiftIntOfIntToString(n);
  }

  /** The bare app URL opens the app and changes nothing. */
  lemma BareLinkChangesNothing(scheme: string, current: Option<int>, c: Option<Components>)
    requires scheme == "hymnarium" || scheme == "adventisthymnarium"
    ensures HandleDeepLink(Url(Some(scheme), None, c), current) == current
  {
  }
}
