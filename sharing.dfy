/**
 * Sharing a saved check (src/pages/index.tsx): the expiry option chosen in
 * the share dialog, the update written to the check's document, and the
 * link handed to the user, which the view page reads its `id` from.
 */
module Sharing {
  import opened Wrappers
  import opened Text
  import opened Records
  import opened Annotation

  /** The calendar step `getExpirationDate` adds to the current date. */
  datatype Offset = Hours(n: nat) | Days(n: nat) | Months(n: nat)

  /** The options the share dialog offers. */
  const KnownOptions: seq<string> := ["1h", "3d", "7d", "1m", "3m"]

  /** The `switch` of `getExpirationDate`: which step each option selects; anything else is three days. */
  function ExpirationOffset(option: string): (off: Offset)
    ensures option == "1h" ==> off == Hours(1)
    ensures option == "3d" ==> off == Days(3)
    ensures option == "7d" ==> off == Days(7)
    ensures option == "1m" ==> off == Months(1)
    ensures option == "3m" ==> off == Months(3)
    ensures option !in KnownOptions ==> off == Days(3)
  {
    match option
    case "1h" => Hours(1)
    case "3d" => Days(3)
    case "7d" => Days(7)
    case "1m" => Months(1)
    case "3m" => Months(3)
    case _ => Days(3)
  }

  /** The option that selects a step, for the five steps the dialog offers. */
  function OptionOf(off: Offset): Option<string>
  {
    match off
    case Hours(1) => Some("1h")
    case Days(3) => Some("3d")
    case Days(7) => Some("7d")
    case Months(1) => Some("1m")
    case Months(3) => Some("3m")
    case _ => None
  }

  /** Every offered option selects its own step, and an unknown option acts exactly like "3d". */
  lemma OptionTableRoundTrip(option: string)
    ensures option in KnownOptions ==> OptionOf(ExpirationOffset(option)) == Some(option)
    ensures option !in KnownOptions ==> ExpirationOffset(option) == ExpirationOffset("3d")
    ensures OptionOf(ExpirationOffset(option)).Some?
  {
  }

  /** The steps that can be selected at all are exactly the five the table names. */
  lemma OffsetsSelectable(off: Offset)
    ensures OptionOf(off).Some? <==> exists i :: 0 <= i < |KnownOptions| && ExpirationOffset(KnownOptions[i]) == off
  {
    if OptionOf(off).Some? {
      var k := match off
        case Hours(_) => 0
        case Days(n) => if n == 3 then 1 else 2
        case Months(n) => if n == 1 then 3 else 4;
      assert ExpirationOffset(KnownOptions[k]) == off;
    }
  }

  /** `${baseUrl}/view_check?id=${lastCheckId}` */
  function ShareLink(origin: string, id: string): string
  {
    origin + "/view_check?id=" + id
  }

  /**
   * `searchParams.get('id')` on the view page: the fragment starts at the
   * first `#`; the query is what follows the first `?` before it, and its
   * `&`-separated pairs are scanned for the first one whose name is `id`.
   * Percent-decoding is not modelled.
   */
  function IdParam(url: string): (r: Option<string>)
  {
    var beforeFragment := url[..IndexOf(url, '#')];
    var q := IndexOf(beforeFragment, '?');
    if q == |beforeFragment| then None
    else FirstParam(SplitOn(beforeFragment[q + 1..], '&'), "id")
  }

  function FirstParam(pairs: seq<string>, name: string): Option<string>
  {
    if pairs == [] then None
    else if ParamName(pairs[0]) == name then Some(ParamValue(pairs[0]))
    else FirstParam(pairs[1..], name)
  }

  function ParamName(pair: string): string
  {
    pair[..IndexOf(pair, '=')]
  }

  function ParamValue(pair: string): string
  {
    var e := IndexOf(pair, '=');
    if e == |pair| then [] else pair[e + 1..]
  }

  /** A URL without `?` has no `id`. */
  lemma NoQueryNoId(url: string)
    requires '?' !in url
    ensures IdParam(url).None?
  {
  }

  /** A `?` inside the fragment does not start a query. */
  lemma QueryInFragmentIgnored()
    ensures IdParam("h#/v?id=X").None?
  {
  }

  /**
   * The shared link opens the shared check: the view page reads back exactly
   * the id that was shared, as long as the origin holds no `?` or `#` and the id
   * holds none of the characters that end or encode a query value.
   */
  lemma ShareLinkRoundTrip(origin: string, id: string)
    requires '?' !in origin && '#' !in origin
    requires '&' !in id && '#' !in id && '%' !in id && '+' !in id
    ensures IdParam(ShareLink(origin, id)) == Some(id)
  {
    var url := ShareLink(origin, id);
    LinkQuery(origin, id);
    assert url[..IndexOf(url, '#')] == url;
    IdPairReads(id);
  }

  /** The link has no fragment, and its query is `id=<id>`. */
  lemma LinkQuery(origin: string, id: string)
    requires '?' !in origin && '#' !in origin && '#' !in id
    ensures '#' !in ShareLink(origin, id)
    ensures var url := ShareLink(origin, id);
      IndexOf(url, '?') == |origin| + 11 && url[|origin| + 12..] == "id=" + id
  {
    var head := origin + "/view_check";
    var rest := "id=" + id;
    assert ShareLink(origin, id) == head + ['?'] + rest;
    assert '?' !in head && '#' !in head by {
      assert forall j :: |origin| <= j < |head| ==> head[j] != '?' && head[j] != '#';
    }
    IndexOfAfterFree(head, '?', rest);
  }

  /** The single pair `id=<id>` reads as the id, when the id holds no `&`. */
  lemma IdPairReads(id: string)
    requires '&' !in id
    ensures FirstParam(SplitOn("id=" + id, '&'), "id") == Some(id)
  {
    var rest := "id=" + id;
    assert '&' !in rest;
    SplitOnFree(rest, '&');
    assert rest == "id" + ['='] + id;
    IndexOfAfterFree("id", '=', id);
    assert rest[..2] == "id";
  }

  /** The document update `handleShare` sends: the chosen step for `expire`, and `shared: true`. */
  datatype ShareUpdate = ShareUpdate(docId: string, offset: Offset, shared: bool)

  /** What a share attempt does: the update it issues and, when the store accepts it, the link it shows. */
  datatype ShareAttempt = ShareAttempt(update: ShareUpdate, link: Option<string>)

  /**
   * `handleShare`: nothing without a saved check (an empty id counts as
   * none); otherwise the update, and the link only once the update went
   * through (a failed update is logged and leaves the link unset).
   */
  function HandleShare(lastCheckId: Option<string>, option: string, origin: string, updateSucceeds: bool)
    : (r: Option<ShareAttempt>)
    ensures r.None? <==> !Truthy(lastCheckId)
    ensures r.Some? ==> r.value.update == ShareUpdate(lastCheckId.value, ExpirationOffset(option), true)
    ensures r.Some? ==> (r.value.link.Some? <==> updateSucceeds)
    ensures r.Some? && r.value.link.Some? ==> r.value.link.value == ShareLink(origin, lastCheckId.value)
  {
    if !Truthy(lastCheckId) then None
    else
      var id := lastCheckId.value;
      var update := ShareUpdate(id, ExpirationOffset(option), true);
      Some(ShareAttempt(update, if updateSucceeds then Some(ShareLink(origin, id)) else None))
  }

  /** A link from a successful share leads the view page to the shared document. */
  lemma SharedLinkNamesDocument(lastCheckId: Option<string>, option: string, origin: string)
    requires Truthy(lastCheckId)
    requires '?' !in origin && '#' !in origin
    requires var id := lastCheckId.value; '&' !in id && '#' !in id && '%' !in id && '+' !in id
    ensures var r := HandleShare(lastCheckId, option, origin, true);
      r.Some? && r.value.link.Some? && IdParam(r.value.link.value) == Some(r.value.update.docId)
  {
    ShareLinkRoundTrip(origin, lastCheckId.value);
  }

  /**
   * `updateDoc(docRef, {expire, shared: true})` on the stored record: both
   * fields are set together and every other field is left as it was.
   * `expireMs` is the chosen step added to the clock reading.
   */
  function ApplyShare(rec: SpellCheck, expireMs: int): (r: SpellCheck)
    ensures r.expire == Some(expireMs) && r.shared == Some(true)
    ensures r.(expire := rec.expire, shared := rec.shared) == rec
  {
    rec.(expire := Some(expireMs), shared := Some(true))
  }

  /** Sharing again only moves the expiry: the last share wins and nothing else changes. */
  lemma ApplyShareTwice(rec: SpellCheck, first: int, second: int)
    ensures ApplyShare(ApplyShare(rec, first), second) == ApplyShare(rec, second)
  {
  }
}
