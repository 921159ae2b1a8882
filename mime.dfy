/**
 * The fetched message as the forwarder sees it: its header fields and its
 * MIME structure (section 5.1 of RFC 2046), a tree whose inner nodes are
 * multipart (or encapsulated-message) parts and whose leaves carry a payload.
 *
 * Each leaf holds what Python's `email` package reports for it: the content
 * type `get_content_type()` gives, the `charset` parameter, the
 * `Content-Disposition` header and the payload after transfer decoding.
 * Turning bytes into text is the `Codec` given by the caller.
 */
module Mime {
  import opened Wrappers
  import opened Text

  newtype byte = b: int | 0 <= b < 256
  type Bytes = seq<byte>

  /**
   * `payload.decode(charset, errors='replace')`: undecodable bytes become
   * replacement characters inside the codec. `None` when the decoding
   * raises: a charset name Python does not know (`LookupError`), or a codec
   * that refuses the `replace` error handler (`idna`, `undefined`).
   */
  type Codec = (Bytes, string) -> Option<string>

  datatype Part =
    | Leaf(contentType: string, charset: Option<string>, disposition: Option<string>, payload: Bytes)
    | Multi(parts: seq<Part>)

  type Header = (string, string)

  datatype Message = Message(headers: seq<Header>, body: Part)

  // ---------------------------------------------------------------------
  // Header fields

  function LowerChar(c: char): char
  {
    if 'A' <= c <= 'Z' then (c as int + 32) as char else c
  }

  /** ASCII lower case, as used to compare header field names. */
  function Lower(s: string): (r: string)
    ensures |r| == |s|
  {
    if s == [] then [] else [LowerChar(s[0])] + Lower(s[1..])
  }

  /** A name without upper-case letters is its own lower case. */
  lemma {:induction false} LowerNoUpper(s: string)
    requires forall i :: 0 <= i < |s| ==> !('A' <= s[i] <= 'Z')
    ensures Lower(s) == s
  {
    if s != [] {
      LowerNoUpper(s[1..]);
    }
  }

  /** `msg[name]`: the value of the first header field whose name equals `name` ignoring case. */
  function GetHeader(hs: seq<Header>, name: string): (r: Option<string>)
    ensures r.None? <==> forall i :: 0 <= i < |hs| ==> Lower(hs[i].0) != Lower(name)
    ensures r.Some? ==> exists i :: 0 <= i < |hs| && Lower(hs[i].0) == Lower(name) && hs[i].1 == r.value
                                   && forall j :: 0 <= j < i ==> Lower(hs[j].0) != Lower(name)
  {
    if hs == [] then None
    else if Lower(hs[0].0) == Lower(name) then Some(hs[0].1)
    else
      var r := GetHeader(hs[1..], name);
      assert forall i :: 1 <= i < |hs| ==> hs[i] == hs[1..][i - 1];
      r
  }

  /**
   * Python's truth value of a `Message`: its length, the number of its
   * header fields. A false message answers every field lookup with `None`;
   * a true one has at least its first field to give.
   */
  predicate TruthyMessage(m: Message)
    ensures TruthyMessage(m) ==> m.headers != [] && GetHeader(m.headers, m.headers[0].0).Some?
    ensures !TruthyMessage(m) ==> forall name :: GetHeader(m.headers, name).None?
  {
    |m.headers| > 0
  }

  // ---------------------------------------------------------------------
  // The part tree in `walk()` order

  /** `walk()`: the part itself, then the walks of its subparts in order (depth-first pre-order). */
  function Walk(p: Part): (ws: seq<Part>)
    ensures |ws| >= 1 && ws[0] == p
    decreases p, 1
  {
    match p
    case Leaf(_, _, _, _) => [p]
    case Multi(ps) => [p] + WalkAll(ps)
  }

  function WalkAll(ps: seq<Part>): seq<Part>
    decreases ps, 0
  {
    if ps == [] then [] else Walk(ps[0]) + WalkAll(ps[1..])
  }

  /** A part the forwarder takes as the body: `text/plain` with no (or an empty) `Content-Disposition`. */
  predicate IsBody(p: Part)
  {
    p.Leaf? && p.contentType == "text/plain" && !Truthy(p.disposition)
  }

  /** `get_content_charset() or 'utf-8'`. */
  function CharsetOf(p: Part): string
    requires p.Leaf?
  {
    if Truthy(p.charset) then p.charset.value else "utf-8"
  }

  function Decode(p: Part, codec: Codec): Option<string>
    requires p.Leaf?
  {
    codec(p.payload, CharsetOf(p))
  }

  /** The position of the first body part in `ws`, if there is one. */
  function FirstBody(ws: seq<Part>): (k: Option<nat>)
    ensures k.Some? ==> k.value < |ws| && IsBody(ws[k.value])
                        && forall j :: 0 <= j < k.value ==> !IsBody(ws[j])
    ensures k.None? ==> forall j :: 0 <= j < |ws| ==> !IsBody(ws[j])
  {
    if ws == [] then None
    else if IsBody(ws[0]) then Some(0)
    else match FirstBody(ws[1..])
      case None => None
      case Some(i) => Some(i + 1)
  }

  /** The first body part of `ws`. */
  function FirstBodyPart(ws: seq<Part>): Option<Part>
  {
    match FirstBody(ws)
    case None => None
    case Some(k) => Some(ws[k])
  }

  /**
   * The text `forward_email` forwards: for a multipart message the decoded
   * first body part in walk order, or "" when there is none; for a
   * single-part message its own decoded payload, whatever its type.
   * `None` when the codec rejects the charset.
   */
  function BodyText(m: Part, codec: Codec): (r: Option<string>)
    ensures m.Leaf? ==> r == Decode(m, codec)
    ensures m.Multi? && (forall k :: 0 <= k < |Walk(m)| ==> !IsBody(Walk(m)[k])) ==> r == Some("")
    ensures m.Multi? && (exists k :: 0 <= k < |Walk(m)| && IsBody(Walk(m)[k])) ==>
              exists k :: 0 <= k < |Walk(m)| && IsBody(Walk(m)[k]) && (forall j :: 0 <= j < k ==> !IsBody(Walk(m)[j]))
                          && r == Decode(Walk(m)[k], codec)
  {
    if m.Multi? then
      match FirstBodyPart(Walk(m))
      case None => Some("")
      case Some(p) => Decode(p, codec)
    else Decode(m, codec)
  }

  /** The extraction loop of `forward_email`: walk the parts, decode the first body part, stop. */
  method ExtractBody(m: Part, codec: Codec) returns (body: Option<string>)
    ensures body == BodyText(m, codec)
  {
    body := Some("");
    if m.Multi? {
      var parts := Walk(m);
      var i := 0;
      while i < |parts|
        invariant 0 <= i <= |parts|
        invariant forall j :: 0 <= j < i ==> !IsBody(parts[j])
        invariant body == Some("")
      {
        var part := parts[i];
        if IsBody(part) {
          body := Decode(part, codec);
          break;
        }
        i := i + 1;
      }
    } else {
      body := Decode(m, codec);
    }
  }

  // ---------------------------------------------------------------------
  // An independent reference: search the tree directly

  /** Depth-first search of the tree for the first body part, without flattening it. */
  function FindBody(p: Part): Option<Part>
    decreases p, 1
  {
    match p
    case Leaf(_, _, _, _) => if IsBody(p) then Some(p) else None
    case Multi(ps) => FindBodyIn(ps)
  }

  function FindBodyIn(ps: seq<Part>): Option<Part>
    decreases ps, 0
  {
    if ps == [] then None
    else match FindBody(ps[0])
      case Some(b) => Some(b)
      case None => FindBodyIn(ps[1..])
  }

  lemma FirstBodyIsFirst(ws: seq<Part>, k: nat)
    requires k < |ws| && IsBody(ws[k])
    requires forall j :: 0 <= j < k ==> !IsBody(ws[j])
    ensures FirstBody(ws) == Some(k)
  {
  }

  /** The first body part of a concatenation is that of the front, else that of the back. */
  lemma FirstBodyPartAppend(a: seq<Part>, b: seq<Part>)
    ensures FirstBodyPart(a + b) == if FirstBodyPart(a).Some? then FirstBodyPart(a) else FirstBodyPart(b)
  {
    var ab := a + b;
    match FirstBody(a)
    case Some(k) =>
      FirstBodyIsFirst(ab, k);
    case None =>
      match FirstBody(b)
      case Some(k) =>
        assert ab[|a| + k] == b[k];
        FirstBodyIsFirst(ab, |a| + k);
      case None =>
        assert forall j :: 0 <= j < |ab| ==> !IsBody(ab[j]) by {
          forall j | 0 <= j < |ab| ensures !IsBody(ab[j]) {
            if j < |a| { assert ab[j] == a[j]; } else { assert ab[j] == b[j - |a|]; }
          }
        }
  }

  /** Searching the tree directly finds the same part as taking the first body part of `walk()`. */
  lemma {:induction false} FindBodyIsFirstInWalk(p: Part)
    ensures FindBody(p) == FirstBodyPart(Walk(p))
    decreases p, 1
  {
    match p
    case Leaf(_, _, _, _) =>
    case Multi(ps) =>
      FindBodyInIsFirstInWalkAll(ps);
      FirstBodyPartAppend([p], WalkAll(ps));
  }

  lemma {:induction false} FindBodyInIsFirstInWalkAll(ps: seq<Part>)
    ensures FindBodyIn(ps) == FirstBodyPart(WalkAll(ps))
    decreases ps, 0
  {
    if ps != [] {
      FindBodyIsFirstInWalk(ps[0]);
      FindBodyInIsFirstInWalkAll(ps[1..]);
      FirstBodyPartAppend(Walk(ps[0]), WalkAll(ps[1..]));
    }
  }

  /** The body of a multipart message is the decoded part the tree search finds, or "". */
  lemma BodyTextByTreeSearch(m: Part, codec: Codec)
    requires m.Multi?
    ensures FindBody(m).Some? ==> FindBody(m).value.Leaf? && BodyText(m, codec) == Decode(FindBody(m).value, codec)
    ensures FindBody(m).None? ==> BodyText(m, codec) == Some("")
  {
    FindBodyIsFirstInWalk(m);
  }

  /** An HTML alternative ahead of the plain-text one is passed over. */
  lemma HtmlThenPlain(html: Bytes, plain: Bytes, codec: Codec)
    ensures BodyText(Multi([Leaf("text/html", None, None, html), Leaf("text/plain", None, None, plain)]), codec)
         == codec(plain, "utf-8")
  {
    var h, t := Leaf("text/html", None, None, html), Leaf("text/plain", None, None, plain);
    var m := Multi([h, t]);
    assert WalkAll([t]) == [t];
    assert WalkAll([h, t]) == [h, t] by { assert [h, t][1..] == [t]; }
    FirstBodyIsFirst(Walk(m), 2);
  }

  /** Any non-empty `Content-Disposition`, `inline` included, keeps a part from being the body. */
  lemma DispositionExcludes(text: Bytes, disposition: string, codec: Codec)
    requires disposition != ""
    ensures BodyText(Multi([Leaf("text/plain", Some("utf-8"), Some(disposition), text)]), codec) == Some("")
  {
    var a := Leaf("text/plain", Some("utf-8"), Some(disposition), text);
    assert WalkAll([a]) == [a];
  }
}
