/**
 * Body extraction of `extract_emails` in Gmail_access.py: which decoded payload of
 * a message becomes its `body`.
 *
 * A multipart message is given as the flat sequence of parts that `msg.walk()`
 * yields (containers included; their content types are `multipart/...`). The
 * MIME parser itself and the transfer decoding are not modelled: a part carries
 * the bytes `get_payload(decode=True)` returns, and the UTF-8 decoding with
 * invalid bytes dropped is the parameter `decode`.
 */
module MimeBody {
  import opened Options

  newtype byte = x: int | 0 <= x < 256
  type Bytes = seq<byte>

  /** One part as `msg.walk()` yields it: `get_content_type()`, the raw
      `Content-Disposition` header (None when absent) and the decoded payload. */
  datatype Part = Part(contentType: string, disposition: Option<string>, payload: Bytes)

  /** A message's content: a single payload, or the walk over a multipart tree. */
  datatype Content = SinglePart(payload: Bytes) | Multipart(parts: seq<Part>)

  const PlainText: string := "text/plain"
  const HtmlText: string := "text/html"
  const AttachmentMarker: string := "attachment"

  /** `needle` occurs in `hay` starting at offset `i`. */
  ghost predicate OccursAt(hay: string, needle: string, i: nat) {
    i + |needle| <= |hay| && hay[i..i + |needle|] == needle
  }

  /** Python's substring test `needle in hay`. */
  function Contains(hay: string, needle: string): bool
    decreases |hay|
  {
    if |needle| <= |hay| && hay[..|needle|] == needle then true
    else if |hay| == 0 then false
    else Contains(hay[1..], needle)
  }

  /** `Contains` holds exactly when the needle occurs at some offset. */
  lemma {:induction false} ContainsMeansOccurs(hay: string, needle: string)
    ensures Contains(hay, needle) <==> exists i: nat :: OccursAt(hay, needle, i)
    decreases |hay|
  {
    if |needle| <= |hay| && hay[..|needle|] == needle {
      assert OccursAt(hay, needle, 0);
    } else if |hay| == 0 {
      forall i: nat ensures !OccursAt(hay, needle, i) {}
    } else {
      ContainsMeansOccurs(hay[1..], needle);
      if Contains(hay[1..], needle) {
        var k: nat :| OccursAt(hay[1..], needle, k);
        assert hay[k + 1..k + 1 + |needle|] == hay[1..][k..k + |needle|];
        assert OccursAt(hay, needle, k + 1);
      } else {
        forall i: nat ensures !OccursAt(hay, needle, i) {
          if i > 0 && i + |needle| <= |hay| {
            assert hay[i..i + |needle|] == hay[1..][i - 1..i - 1 + |needle|];
            assert !OccursAt(hay[1..], needle, i - 1);
          }
        }
      }
    }
  }

  /** `str(part.get("Content-Disposition"))`: a missing header prints as "None". */
  function DispositionText(disposition: Option<string>): string {
    match disposition
    case None => "None"
    case Some(text) => text
  }

  /** A part the walk skips: its disposition text contains "attachment". */
  predicate IsAttachment(p: Part) {
    Contains(DispositionText(p.disposition), AttachmentMarker)
  }

  predicate IsPlainCandidate(p: Part) {
    !IsAttachment(p) && p.contentType == PlainText
  }

  predicate IsHtmlCandidate(p: Part) {
    !IsAttachment(p) && p.contentType == HtmlText
  }

  /** The position of the first non-attachment text/plain part, if any. */
  function FirstPlain(parts: seq<Part>): (r: Option<nat>)
    ensures r.Some? ==> r.value < |parts| && IsPlainCandidate(parts[r.value])
    ensures r.Some? ==> forall j :: 0 <= j < r.value ==> !IsPlainCandidate(parts[j])
    ensures r.None? ==> forall j :: 0 <= j < |parts| ==> !IsPlainCandidate(parts[j])
  {
    if |parts| == 0 then None
    else if IsPlainCandidate(parts[0]) then Some(0)
    else match FirstPlain(parts[1..])
      case None => None
      case Some(k) => Some(k + 1)
  }

  /** The position of the last non-attachment text/html part, if any. */
  function LastHtml(parts: seq<Part>): (r: Option<nat>)
    ensures r.Some? ==> r.value < |parts| && IsHtmlCandidate(parts[r.value])
    ensures r.Some? ==> forall j :: r.value < j < |parts| ==> !IsHtmlCandidate(parts[j])
    ensures r.None? ==> forall j :: 0 <= j < |parts| ==> !IsHtmlCandidate(parts[j])
  {
    if |parts| == 0 then None
    else if IsHtmlCandidate(parts[|parts| - 1]) then Some(|parts| - 1)
    else
      var init := parts[..|parts| - 1];
      assert forall j :: 0 <= j < |init| ==> init[j] == parts[j];
      LastHtml(init)
  }

  /** The decoded last HTML candidate, or "" when there is none. */
  function HtmlBody(parts: seq<Part>, decode: Bytes -> string): string {
    match LastHtml(parts)
    case None => ""
    case Some(i) => decode(parts[i].payload)
  }

  /** The body a multipart message yields: the first plain-text candidate,
      else the last HTML candidate, else the empty string. */
  function SelectBody(parts: seq<Part>, decode: Bytes -> string): string {
    match FirstPlain(parts)
    case Some(i) => decode(parts[i].payload)
    case None => HtmlBody(parts, decode)
  }

  /** The body of a message of either shape. */
  function MessageBody(content: Content, decode: Bytes -> string): string {
    match content
    case SinglePart(payload) => decode(payload)
    case Multipart(parts) => SelectBody(parts, decode)
  }

  /** The loop over `msg.walk()`: skip attachments, stop at the first
      text/plain part, let every text/html part overwrite the body. */
  method WalkParts(parts: seq<Part>, decode: Bytes -> string) returns (body: string)
    ensures body == SelectBody(parts, decode)
  {
    body := "";
    for i := 0 to |parts|
      invariant forall j :: 0 <= j < i ==> !IsPlainCandidate(parts[j])
      invariant body == HtmlBody(parts[..i], decode)
    {
      var part := parts[i];
      if IsAttachment(part) {
        assert parts[..i + 1][..i] == parts[..i];
        continue;
      }
      if part.contentType == PlainText {
        body := decode(part.payload);
        assert FirstPlain(parts) == Some(i);
        return;
      } else if part.contentType == HtmlText {
        body := decode(part.payload);
      } else {
        assert parts[..i + 1][..i] == parts[..i];
      }
    }
    assert parts[..|parts|] == parts;
  }

  /** The body of `extract_emails`: a multipart message is walked, a single-part
      message's payload is decoded as it is. */
  method ExtractBody(content: Content, decode: Bytes -> string) returns (body: string)
    ensures body == MessageBody(content, decode)
    ensures content.SinglePart? ==> body == decode(content.payload)
  {
    if content.Multipart? {
      body := WalkParts(content.parts, decode);
    } else {
      body := decode(content.payload);
    }
  }

  /** A string shorter than the needle cannot contain it. */
  lemma {:induction false} ShortHayContainsNothing(hay: string, needle: string)
    requires |hay| < |needle|
    ensures !Contains(hay, needle)
    decreases |hay|
  {
    if |hay| > 0 {
      ShortHayContainsNothing(hay[1..], needle);
    }
  }

  /** A part without a Content-Disposition header is never taken for an attachment. */
  lemma MissingDispositionIsNoAttachment(contentType: string, payload: Bytes)
    ensures !IsAttachment(Part(contentType, None, payload))
  {
    ShortHayContainsNothing("None", AttachmentMarker);
  }

  /** The first plain-text candidate is the one `FirstPlain` finds. */
  lemma {:induction false} FirstPlainIs(parts: seq<Part>, i: nat)
    requires i < |parts| && IsPlainCandidate(parts[i])
    requires forall j :: 0 <= j < i ==> !IsPlainCandidate(parts[j])
    ensures FirstPlain(parts) == Some(i)
  {
    if i > 0 {
      assert !IsPlainCandidate(parts[0]);
      var rest := parts[1..];
      assert forall j :: 0 <= j < i - 1 ==> rest[j] == parts[j + 1];
      FirstPlainIs(rest, i - 1);
    }
  }

  /** The last HTML candidate is the one `LastHtml` finds. */
  lemma {:induction false} LastHtmlIs(parts: seq<Part>, i: nat)
    requires i < |parts| && IsHtmlCandidate(parts[i])
    requires forall j :: i < j < |parts| ==> !IsHtmlCandidate(parts[j])
    ensures LastHtml(parts) == Some(i)
  {
    if i < |parts| - 1 {
      assert !IsHtmlCandidate(parts[|parts| - 1]);
      var init := parts[..|parts| - 1];
      assert forall j :: 0 <= j < |init| ==> init[j] == parts[j];
      LastHtmlIs(init, i);
    }
  }

  /** The first non-attachment text/plain part is the body, whatever HTML parts
      come before it and whatever parts come after it. */
  lemma PlainPreferred(parts: seq<Part>, i: nat, decode: Bytes -> string)
    requires i < |parts| && IsPlainCandidate(parts[i])
    requires forall j :: 0 <= j < i ==> !IsPlainCandidate(parts[j])
    ensures SelectBody(parts, decode) == decode(parts[i].payload)
  {
    FirstPlainIs(parts, i);
  }

  /** Parts without a plain-text candidate that precede a message's parts do not
      change its body once those parts hold a plain-text candidate. */
  lemma PlainWinsRegardlessOfOrder(before: seq<Part>, parts: seq<Part>, decode: Bytes -> string)
    requires forall j :: 0 <= j < |before| ==> !IsPlainCandidate(before[j])
    requires exists j :: 0 <= j < |parts| && IsPlainCandidate(parts[j])
    ensures SelectBody(before + parts, decode) == SelectBody(parts, decode)
  {
    var k := FirstPlain(parts).value;
    var all := before + parts;
    assert all[|before| + k] == parts[k];
    forall j | 0 <= j < |before| + k
      ensures !IsPlainCandidate(all[j])
    {
      if j >= |before| {
        assert all[j] == parts[j - |before|];
      }
    }
    FirstPlainIs(all, |before| + k);
  }

  /** Without a plain-text candidate the last non-attachment HTML part is the body. */
  lemma HtmlFallback(parts: seq<Part>, i: nat, decode: Bytes -> string)
    requires forall j :: 0 <= j < |parts| ==> !IsPlainCandidate(parts[j])
    requires i < |parts| && IsHtmlCandidate(parts[i])
    requires forall j :: i < j < |parts| ==> !IsHtmlCandidate(parts[j])
    ensures SelectBody(parts, decode) == decode(parts[i].payload)
  {
    LastHtmlIs(parts, i);
  }

  /** Without any text candidate the body stays the empty string. */
  lemma NoTextMeansEmptyBody(parts: seq<Part>, decode: Bytes -> string)
    requires forall j :: 0 <= j < |parts| ==> !IsPlainCandidate(parts[j]) && !IsHtmlCandidate(parts[j])
    ensures SelectBody(parts, decode) == ""
  {
  }

  /** An attachment contributes nothing: replacing it by any other attachment,
      whatever its content type and payload, leaves the body unchanged. */
  lemma AttachmentIrrelevant(parts: seq<Part>, i: nat, other: Part, decode: Bytes -> string)
    requires i < |parts| && IsAttachment(parts[i]) && IsAttachment(other)
    ensures SelectBody(parts[i := other], decode) == SelectBody(parts, decode)
  {
    var changed := parts[i := other];
    match FirstPlain(parts)
    case Some(k) =>
      FirstPlainIs(changed, k);
    case None =>
      match LastHtml(parts)
      case Some(k) =>
        LastHtmlIs(changed, k);
      case None =>
  }

  /** The body is either empty or the decoded payload of a non-attachment text part. */
  lemma BodySource(parts: seq<Part>, decode: Bytes -> string)
    ensures SelectBody(parts, decode) == "" ||
      exists j :: 0 <= j < |parts| && !IsAttachment(parts[j]) &&
        (parts[j].contentType == PlainText || parts[j].contentType == HtmlText) &&
        SelectBody(parts, decode) == decode(parts[j].payload)
  {
  }
}
