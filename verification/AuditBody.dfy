/**
 backend/middleware_audit.go: what the audit reads of a request body without taking it from the
 handler, and its capped copy of the response.
 */
module AuditBody {
  import opened AuditKeys
  import opened AuditSummary
  import opened JsonText
  import opened Options
  import opened Utf8

  const MAX_BODY_BYTES: nat := 4096

  /** A request body: bytes that are consumed by reading. */
  class Body {
    var unread: bytes

    constructor (content: bytes)
      ensures unread == content
    {
      unread := content;
    }

    /** At most n bytes; a connection error may end the reading earlier. */
    method ReadUpTo(n: nat, failAfter: Option<nat>) returns (buf: bytes, failed: bool)
      modifies this
      ensures buf + unread == old(unread) && |buf| <= n
      ensures !failed ==> |buf| == n || unread == []
      ensures failed ==> failAfter.Some?
    {
      var want := if n < |unread| then n else |unread|;
      failed := failAfter.Some? && failAfter.value < want;
      var got := if failed then failAfter.value else want;
      buf := unread[..got];
      unread := unread[got..];
    }
  }

  /** The two routes whose detail is a summary of a list of strings. */
  datatype Extractor = BlockHashes | ObjectKeys

  function ReadBy(e: Extractor, body: bytes): Reading {
    match e
    case BlockHashes => ReadArray(body)
    case ObjectKeys => ReadKeys(body)
  }

  /** The strings at the front of the list that the body holds. */
  function StringsBy(e: Extractor, body: bytes): seq<bytes> {
    match e
    case BlockHashes => ArrayStrings(body)
    case ObjectKeys => KeyStrings(body)
  }

  method Extract(e: Extractor, body: bytes, complete: bool) returns (r: Summary)
    ensures r == SummaryOf(ReadBy(e, body), complete)
  {
    match e {
      case BlockHashes => r := StringArraySummary(body, complete);
      case ObjectKeys => r := ExtractObjectKeys(body, complete);
    }
  }

  /** What is logged about a body: sound, and each value shown the longest prefix of a decoded one. */
  ghost predicate SoundDetail(detail: Summary, e: Extractor, body: bytes) {
    SoundSummary(detail, ReadBy(e, body), StringsBy(e, body)) &&
    ShowsLongestPrefixes(detail, StringsBy(e, body))
  }

  lemma StringsByAreValid(e: Extractor, body: bytes)
    ensures AllValid(StringsBy(e, body))
  {
    match e {
      case BlockHashes =>
        if Opens(body) {
          StringsAreValid(body, SkipSpace(body, 0) + 1, AtStart);
        }
      case ObjectKeys =>
        if KeysArray(body).Some? {
          StringsAreValid(body, KeysArray(body).value, AtStart);
        }
    }
  }

  /** For every body and cut: what is logged about the cut body is sound for the whole one. */
  lemma CutIsSound(e: Extractor, body: bytes, c: nat)
    requires c <= |body|
    ensures SoundDetail(SummaryOf(ReadBy(e, body[..c]), false), e, body)
  {
    match e {
      case BlockHashes => CutSummaryIsSound(body, c);
      case ObjectKeys => CutKeysSummaryIsSound(body, c);
    }
    StringsByAreValid(e, body);
    SoundSummaryShowsPrefixes(SummaryOf(ReadBy(e, body[..c]), false), ReadBy(e, body), StringsBy(e, body));
  }

  /** A body read in full is one cut behind its last byte, except that an unclosed list gives nothing. */
  lemma WholeIsSound(e: Extractor, body: bytes)
    ensures SoundDetail(SummaryOf(ReadBy(e, body), true), e, body)
  {
    assert body[..|body|] == body;
    CutIsSound(e, body, |body|);
  }

  /**
   The handler behind the audit reads every byte of the body. What is logged is exact for a body
   that fits in the read limit and sound for every other one, whatever the body holds.
   */
  method AuditDetail(e: Extractor, orig: Body, failAfter: Option<nat>) returns (detail: Summary, prefix: bytes)
    modifies orig
    ensures prefix + orig.unread == old(orig.unread)
    ensures SoundDetail(detail, e, old(orig.unread))
    ensures failAfter.None? && |old(orig.unread)| <= MAX_BODY_BYTES ==>
              detail == SummaryOf(ReadBy(e, old(orig.unread)), true)
    ensures failAfter.None? && |old(orig.unread)| > MAX_BODY_BYTES ==>
              detail == SummaryOf(ReadBy(e, old(orig.unread)[..MAX_BODY_BYTES]), false)
  {
    ghost var whole := orig.unread;
    var failed;
    prefix, failed := orig.ReadUpTo(MAX_BODY_BYTES + 1, failAfter);
    if failed {
      return NoSummary, prefix;
    }
    var complete := |prefix| <= MAX_BODY_BYTES;
    var buf := if complete then prefix else prefix[..MAX_BODY_BYTES];
    if complete {
      assert prefix == whole;
      WholeIsSound(e, whole);
    } else {
      assert buf == whole[..MAX_BODY_BYTES];
      CutIsSound(e, whole, MAX_BODY_BYTES);
    }
    detail := Extract(e, buf, complete);
  }

  /** The copy of a response kept for the audit line. */
  class CappedBuffer {
    var buf: bytes
    const max: nat
    var overflow: bool
    ghost var written: bytes

    ghost predicate ValidBuffer()
      reads this
    {
      buf == written[..if |written| < max then |written| else max] && (overflow <==> |written| > max)
    }

    constructor (max: nat)
      ensures ValidBuffer() && written == [] && this.max == max
    {
      this.max := max;
      buf, overflow, written := [], false, [];
    }

    /** Everything is accepted; the buffer keeps the first max bytes and knows whether there were more. */
    method Write(p: bytes) returns (n: nat)
      requires ValidBuffer()
      modifies this
      ensures ValidBuffer() && written == old(written) + p && n == |p|
    {
      written := written + p;
      if max > |buf| {
        var room := max - |buf|;
        if |p| > room {
          buf := buf + p[..room];
          overflow := true;
        } else {
          buf := buf + p;
        }
      } else if |p| > 0 {
        overflow := true;
      }
      return |p|;
    }

    /** A complete copy is the whole response. */
    method Complete() returns (c: bool)
      requires ValidBuffer()
      ensures c <==> |written| <= max
      ensures c ==> buf == written
    {
      c := !overflow;
    }
  }
}
