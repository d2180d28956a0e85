/** `GET /api/opinions/{opinion_id}`: the outcome (404, 500 or the assembled detail), the
    citation lists with their corpus-existence flags, and the PDF link built from the configured
    storage base URL. */
module Opinions {
  import opened Common
  import opened Metadata

  // ---------------------------------------------------------------------------
  // UTF-8 and percent-encoding
  // ---------------------------------------------------------------------------

  newtype byte = x: int | 0 <= x < 256

  /** The UTF-8 encoding of one Unicode scalar value. */
  function EncodeChar(c: char): (bs: seq<byte>)
    ensures 1 <= |bs| <= 4
  {
    var cp := c as int;
    if cp < 0x80 then [cp as byte]
    else if cp < 0x800 then [(0xC0 + cp / 0x40) as byte, (0x80 + cp % 0x40) as byte]
    else if cp < 0x1_0000 then
      [(0xE0 + cp / 0x1000) as byte, (0x80 + cp / 0x40 % 0x40) as byte, (0x80 + cp % 0x40) as byte]
    else
      [(0xF0 + cp / 0x4_0000) as byte, (0x80 + cp / 0x1000 % 0x40) as byte,
       (0x80 + cp / 0x40 % 0x40) as byte, (0x80 + cp % 0x40) as byte]
  }

  /** `str.encode("utf-8")`. */
  function Utf8(s: string): seq<byte> {
    if s == [] then [] else EncodeChar(s[0]) + Utf8(s[1..])
  }

  /** The code point carried by the continuation byte `b`. */
  function Low6(b: byte): int { b as int % 0x40 }

  /** A continuation byte, `10xxxxxx`. */
  predicate Cont(bs: seq<byte>, i: nat) {
    i < |bs| && 0x80 <= bs[i] < 0xC0
  }

  /** Decodes the first character of UTF-8 bytes, giving the character and the number of bytes
      it used; `None` when the lead or a continuation byte is out of range or the code point is
      not a Unicode scalar value. Overlong forms are not rejected. */
  function DecodeFirst(bs: seq<byte>): Option<(char, nat)> {
    if bs == [] then None
    else
      var b0 := bs[0] as int;
      var d :=
        if b0 < 0x80 then (b0, 1)
        else if 0xC0 <= b0 < 0xE0 && Cont(bs, 1) then ((b0 - 0xC0) * 0x40 + Low6(bs[1]), 2)
        else if 0xE0 <= b0 < 0xF0 && Cont(bs, 1) && Cont(bs, 2) then
          ((b0 - 0xE0) * 0x1000 + Low6(bs[1]) * 0x40 + Low6(bs[2]), 3)
        else if 0xF0 <= b0 < 0xF8 && Cont(bs, 1) && Cont(bs, 2) && Cont(bs, 3) then
          ((b0 - 0xF0) * 0x4_0000 + Low6(bs[1]) * 0x1000 + Low6(bs[2]) * 0x40 + Low6(bs[3]), 4)
        else (-1, 0);
      var cp, n := d.0, d.1;
      if n > 0 && (0 <= cp < 0xD800 || 0xE000 <= cp < 0x11_0000) then Some((cp as char, n))
      else None
  }

  /** Decodes a UTF-8 byte sequence, `None` when it is not well formed. */
  function DecodeUtf8(bs: seq<byte>): Option<string>
    decreases |bs|
  {
    if bs == [] then Some([])
    else match DecodeFirst(bs)
      case None => None
      case Some((c, n)) =>
        if n > |bs| then None
        else match DecodeUtf8(bs[n..])
          case None => None
          case Some(rest) => Some([c] + rest)
  }

  /** A continuation byte `0x80 + x` carries `x`. */
  lemma ContinuationByte(x: int)
    requires 0 <= x < 0x40
    ensures 0x80 <= 0x80 + x < 0xC0 && Low6((0x80 + x) as byte) == x
  {
  }

  lemma DecodeTwoBytes(c: char, rest: seq<byte>)
    requires 0x80 <= c as int < 0x800
    ensures DecodeFirst(EncodeChar(c) + rest) == Some((c, 2))
  {
    var cp := c as int;
    var hi, lo := cp / 0x40, cp % 0x40;
    assert cp == hi * 0x40 + lo;
    ContinuationByte(lo);
    var bs := EncodeChar(c) + rest;
    assert bs[0] as int == 0xC0 + hi && bs[1] as int == 0x80 + lo;
  }

  lemma DecodeThreeBytes(c: char, rest: seq<byte>)
    requires 0x800 <= c as int < 0x1_0000
    ensures DecodeFirst(EncodeChar(c) + rest) == Some((c, 3))
  {
    var cp := c as int;
    var top, mid, lo := cp / 0x1000, cp / 0x40 % 0x40, cp % 0x40;
    assert cp / 0x40 == top * 0x40 + mid;
    assert cp == (top * 0x40 + mid) * 0x40 + lo;
    ContinuationByte(mid);
    ContinuationByte(lo);
    var bs := EncodeChar(c) + rest;
    assert bs[0] as int == 0xE0 + top && bs[1] as int == 0x80 + mid && bs[2] as int == 0x80 + lo;
  }

  lemma DecodeFourBytes(c: char, rest: seq<byte>)
    requires 0x1_0000 <= c as int
    ensures DecodeFirst(EncodeChar(c) + rest) == Some((c, 4))
  {
    var cp := c as int;
    var top, b1, b2, lo := cp / 0x4_0000, cp / 0x1000 % 0x40, cp / 0x40 % 0x40, cp % 0x40;
    assert cp / 0x1000 == top * 0x40 + b1;
    assert cp / 0x40 == (cp / 0x1000) * 0x40 + b2;
    assert cp == (cp / 0x40) * 0x40 + lo;
    assert cp == top * 0x4_0000 + b1 * 0x1000 + b2 * 0x40 + lo;
    ContinuationByte(b1);
    ContinuationByte(b2);
    ContinuationByte(lo);
    var bs := EncodeChar(c) + rest;
    assert bs[0] as int == 0xF0 + top && bs[1] as int == 0x80 + b1;
    assert bs[2] as int == 0x80 + b2 && bs[3] as int == 0x80 + lo;
  }

  /** Decoding the first character of an encoded character followed by anything recovers it. */
  lemma DecodeEncodedChar(c: char, rest: seq<byte>)
    ensures DecodeFirst(EncodeChar(c) + rest) == Some((c, |EncodeChar(c)|))
  {
    var cp := c as int;
    if cp < 0x80 {
      assert (EncodeChar(c) + rest)[0] as int == cp;
    } else if cp < 0x800 {
      DecodeTwoBytes(c, rest);
    } else if cp < 0x1_0000 {
      DecodeThreeBytes(c, rest);
    } else {
      DecodeFourBytes(c, rest);
    }
  }

  /** UTF-8 decoding inverts UTF-8 encoding. */
  lemma {:induction false} Utf8RoundTrip(s: string)
    ensures DecodeUtf8(Utf8(s)) == Some(s)
  {
    if s != [] {
      var e := EncodeChar(s[0]);
      Utf8RoundTrip(s[1..]);
      DecodeEncodedChar(s[0], Utf8(s[1..]));
      assert Utf8(s) == e + Utf8(s[1..]);
      assert (e + Utf8(s[1..]))[|e|..] == Utf8(s[1..]);
      assert [s[0]] + s[1..] == s;
    }
  }

  /** The characters `urllib.parse.quote` never encodes (the unreserved set of section 2.3 of
      RFC 3986) together with the extra safe character `/`. */
  predicate Unescaped(b: byte) {
    || (0x41 <= b <= 0x5A) || (0x61 <= b <= 0x7A) || (0x30 <= b <= 0x39)
    || b == 0x5F || b == 0x2E || b == 0x2D || b == 0x7E || b == 0x2F
  }

  /** The upper-case hex digit of `d`. */
  function HexDigit(d: int): (c: char)
    requires 0 <= d < 16
    ensures IsUpperHex(c)
  {
    if d < 10 then ('0' as int + d) as char else ('A' as int + d - 10) as char
  }

  predicate IsUpperHex(c: char) {
    '0' <= c <= '9' || 'A' <= c <= 'F'
  }

  function HexValue(c: char): Option<nat> {
    if '0' <= c <= '9' then Some(c as int - '0' as int)
    else if 'A' <= c <= 'F' then Some(c as int - 'A' as int + 10)
    else if 'a' <= c <= 'f' then Some(c as int - 'a' as int + 10)
    else None
  }

  /** A byte as `%XY` with upper-case hex digits (section 2.1 of RFC 3986). */
  function Escape(b: byte): (r: string)
    ensures |r| == 3 && r[0] == '%'
  {
    ['%', HexDigit(b as int / 16), HexDigit(b as int % 16)]
  }

  /** `quote_from_bytes(bs, safe="/")`. */
  function QuoteBytes(bs: seq<byte>): string {
    if bs == [] then []
    else (if Unescaped(bs[0]) then [bs[0] as int as char] else Escape(bs[0])) + QuoteBytes(bs[1..])
  }

  /** `urllib.parse.quote(s, safe="/")`: the UTF-8 bytes, percent-encoded. */
  function Quote(s: string): string {
    QuoteBytes(Utf8(s))
  }

  /** Percent-decoding to bytes (`unquote_to_bytes`), `None` on a malformed escape or a
      character that is not a single byte. */
  function UnquoteBytes(s: string): Option<seq<byte>>
    decreases |s|
  {
    if s == [] then Some([])
    else if s[0] == '%' then
      if |s| < 3 then None
      else match (HexValue(s[1]), HexValue(s[2]))
        case (Some(hi), Some(lo)) =>
          (match UnquoteBytes(s[3..])
           case None => None
           case Some(rest) => Some([(hi * 16 + lo) as byte] + rest))
        case _ => None
    else if s[0] as int < 256 then
      match UnquoteBytes(s[1..])
      case None => None
      case Some(rest) => Some([s[0] as int as byte] + rest)
    else None
  }

  /** Every character of a quoted string is unreserved, `/`, `%` or an upper-case hex digit. */
  lemma {:induction false} QuoteBytesAlphabet(bs: seq<byte>)
    ensures forall i :: 0 <= i < |QuoteBytes(bs)| ==>
      var c := QuoteBytes(bs)[i];
      c == '%' || IsUpperHex(c) || (c as int < 256 && Unescaped(c as int as byte))
  {
    if bs != [] {
      QuoteBytesAlphabet(bs[1..]);
      var head := if Unescaped(bs[0]) then [bs[0] as int as char] else Escape(bs[0]);
      assert QuoteBytes(bs) == head + QuoteBytes(bs[1..]);
      forall i | 0 <= i < |QuoteBytes(bs)|
        ensures var c := QuoteBytes(bs)[i];
          c == '%' || IsUpperHex(c) || (c as int < 256 && Unescaped(c as int as byte))
      {
        if i >= |head| {
          assert QuoteBytes(bs)[i] == QuoteBytes(bs[1..])[i - |head|];
        }
      }
    }
  }

  /** Percent-decoding inverts the percent-encoding of any byte sequence. */
  lemma {:induction false} QuoteBytesRoundTrip(bs: seq<byte>)
    ensures UnquoteBytes(QuoteBytes(bs)) == Some(bs)
  {
    if bs != [] {
      QuoteBytesRoundTrip(bs[1..]);
      var b, rest := bs[0], QuoteBytes(bs[1..]);
      if Unescaped(b) {
        assert QuoteBytes(bs) == [b as int as char] + rest;
        UnquoteLiteral(b, rest);
      } else {
        assert QuoteBytes(bs) == Escape(b) + rest;
        UnquoteEscape(b, rest);
      }
      assert [b] + bs[1..] == bs;
    }
  }

  /** An unescaped byte decodes as itself, in front of whatever the rest decodes to. */
  lemma UnquoteLiteral(b: byte, rest: string)
    requires Unescaped(b)
    ensures UnquoteBytes([b as int as char] + rest) ==
      if UnquoteBytes(rest).Some? then Some([b] + UnquoteBytes(rest).value) else None
  {
    var q := [b as int as char] + rest;
    assert q[0] != '%' && q[0] as int < 256 && q[0] as int as byte == b;
    assert q[1..] == rest;
  }

  /** An escape decodes to its byte, in front of whatever the rest decodes to. */
  lemma UnquoteEscape(b: byte, rest: string)
    ensures UnquoteBytes(Escape(b) + rest) ==
      if UnquoteBytes(rest).Some? then Some([b] + UnquoteBytes(rest).value) else None
  {
    var q := Escape(b) + rest;
    var hi, lo := b as int / 16, b as int % 16;
    assert q[0] == '%' && q[1] == HexDigit(hi) && q[2] == HexDigit(lo);
    assert HexValue(HexDigit(hi)) == Some(hi);
    assert HexValue(HexDigit(lo)) == Some(lo);
    assert hi * 16 + lo == b as int;
    assert q[3..] == rest;
  }

  /** Decoding a quoted string, first the escapes and then UTF-8, gives back the string. */
  lemma QuoteRoundTrip(s: string)
    ensures UnquoteBytes(Quote(s)) == Some(Utf8(s))
    ensures DecodeUtf8(Utf8(s)) == Some(s)
  {
    QuoteBytesRoundTrip(Utf8(s));
    Utf8RoundTrip(s);
  }

  // ---------------------------------------------------------------------------
  // The PDF link
  // ---------------------------------------------------------------------------

  const RawPdfPrefix: string := "raw_pdfs/"

  /** `str.removeprefix`: drops one leading occurrence. */
  function RemovePrefix(s: string, prefix: string): (r: string)
    ensures IsPrefix(prefix, s) ==> prefix + r == s
    ensures !IsPrefix(prefix, s) ==> r == s
  {
    if IsPrefix(prefix, s) then s[|prefix|..] else s
  }

  /** `_build_pdf_url`: with a storage base configured (`baseUrl` non-empty) and a local path,
      the base without trailing slashes, a slash, and the path without one leading `raw_pdfs/`,
      percent-encoded with slashes kept; otherwise the record's `pdf_url`. */
  function BuildPdfUrl(raw: RawOpinion, baseUrl: string): Option<string> {
    if baseUrl != [] && Truthy(raw.localPdfPath) then
      var relative := RemovePrefix(raw.localPdfPath.value, RawPdfPrefix);
      Some(TrimEnd(baseUrl, {'/'}) + "/" + Quote(relative))
    else raw.pdfUrl
  }

  /** The storage link is the trimmed base, a slash and an encoded tail that decodes back to the
      local path with its one `raw_pdfs/` prefix removed; without a base or a local path the
      record's own link is used. */
  lemma BuildPdfUrlSpec(raw: RawOpinion, baseUrl: string)
    ensures !(baseUrl != [] && Truthy(raw.localPdfPath)) ==> BuildPdfUrl(raw, baseUrl) == raw.pdfUrl
    ensures baseUrl != [] && Truthy(raw.localPdfPath) ==>
      var url, base := BuildPdfUrl(raw, baseUrl), TrimEnd(baseUrl, {'/'});
      var relative := RemovePrefix(raw.localPdfPath.value, RawPdfPrefix);
      && url.Some? && IsPrefix(base + "/", url.value)
      && (base != [] ==> base[|base| - 1] != '/')
      && UnquoteBytes(url.value[|base| + 1..]) == Some(Utf8(relative))
      && DecodeUtf8(Utf8(relative)) == Some(relative)
      && (IsPrefix(RawPdfPrefix, raw.localPdfPath.value) ==> RawPdfPrefix + relative == raw.localPdfPath.value)
  {
    if baseUrl != [] && Truthy(raw.localPdfPath) {
      var base := TrimEnd(baseUrl, {'/'});
      var relative := RemovePrefix(raw.localPdfPath.value, RawPdfPrefix);
      var url := base + "/" + Quote(relative);
      assert url[|base| + 1..] == Quote(relative);
      assert url[..|base + "/"|] == base + "/";
      QuoteRoundTrip(relative);
    }
  }

  // ---------------------------------------------------------------------------
  // The detail
  // ---------------------------------------------------------------------------

  /** A cited opinion and whether it is in the corpus. */
  datatype CitedOpinion = CitedOpinion(opinionNumber: string, existsInCorpus: bool)

  datatype OpinionDetail = OpinionDetail(
    id: string,
    opinionNumber: string,
    date: Option<string>,
    year: int,
    requestorName: Option<string>,
    requestorTitle: Option<string>,
    requestorCity: Option<string>,
    documentType: Option<string>,
    question: Option<string>,
    conclusion: Option<string>,
    facts: Option<string>,
    analysis: Option<string>,
    topicPrimary: Option<string>,
    topicSecondary: Option<string>,
    topicTags: seq<string>,
    governmentCodeSections: seq<string>,
    regulations: seq<string>,
    priorOpinions: seq<CitedOpinion>,
    citedBy: seq<CitedOpinion>,
    pdfUrl: Option<string>,
    pageCount: Option<int>,
    wordCount: Option<int>,
    hasStandardFormat: Option<bool>)

  /** The response: an error with its status and message, or the detail. */
  datatype Response = Error(status: int, message: string) | Found(detail: OpinionDetail)

  /** The cited ids, in order, each flagged with whether the corpus has it. */
  function CitedList(ids: seq<string>, opinions: map<string, OpinionMeta>): (r: seq<CitedOpinion>)
    ensures |r| == |ids|
    ensures forall k :: 0 <= k < |r| ==>
      r[k].opinionNumber == ids[k] && (r[k].existsInCorpus <==> ids[k] in opinions)
  {
    seq(|ids|, k requires 0 <= k < |ids| => CitedOpinion(ids[k], ids[k] in opinions))
  }

  /** The detail assembled from a loaded file. */
  function Assemble(opinionId: string, raw: RawOpinion, opinions: map<string, OpinionMeta>,
                    baseUrl: string): OpinionDetail
  {
    OpinionDetail(
      opinionId, opinionId, raw.date, raw.year.GetOr(0),
      raw.requestorName, raw.requestorTitle, raw.requestorCity, raw.documentType,
      OrElse(raw.question, raw.questionSynthetic), OrElse(raw.conclusion, raw.conclusionSynthetic),
      raw.facts, raw.analysis, raw.topicPrimary, raw.topicSecondary,
      ListOrEmpty(raw.topicTags), ListOrEmpty(raw.governmentCode), ListOrEmpty(raw.regulations),
      CitedList(ListOrEmpty(raw.priorOpinions), opinions),
      CitedList(ListOrEmpty(raw.citedBy), opinions),
      BuildPdfUrl(raw, baseUrl), raw.pageCount, raw.wordCount, raw.hasStandardFormat)
  }

  /** `get_opinion`. `read` stands for opening and decoding the file at a path, `None` when that
      fails; `baseUrl` is the configured storage base URL. */
  function GetOpinion(opinionId: string, opinions: map<string, OpinionMeta>,
                      read: string -> Option<RawOpinion>, baseUrl: string): Response
  {
    if opinionId !in opinions then Error(404, "Opinion not found")
    else match read(opinions[opinionId].filePath)
      case None => Error(500, "Failed to load opinion data")
      case Some(raw) => Found(Assemble(opinionId, raw, opinions, baseUrl))
  }

  /** The three outcomes: 404 exactly for an unknown id, 500 exactly when the file of a known id
      cannot be loaded, and otherwise the detail of that file under the requested id, with the
      synthetic fallbacks for question and conclusion, year 0 and empty lists for missing
      fields, and each citation flagged by whether the corpus has it. */
  lemma GetOpinionSpec(opinionId: string, opinions: map<string, OpinionMeta>,
                       read: string -> Option<RawOpinion>, baseUrl: string)
    ensures var r := GetOpinion(opinionId, opinions, read, baseUrl);
      && (r == Error(404, "Opinion not found") <==> opinionId !in opinions)
      && (r == Error(500, "Failed to load opinion data") <==>
            opinionId in opinions && read(opinions[opinionId].filePath).None?)
      && (r.Found? <==> opinionId in opinions && read(opinions[opinionId].filePath).Some?)
    ensures var r := GetOpinion(opinionId, opinions, read, baseUrl);
      r.Found? ==>
        var raw, d := read(opinions[opinionId].filePath).value, r.detail;
        && d.id == opinionId && d.opinionNumber == opinionId
        && d.year == raw.year.GetOr(0)
        && (Truthy(d.question) <==> Truthy(raw.question) || Truthy(raw.questionSynthetic))
        && (Truthy(raw.question) ==> d.question == raw.question)
        && (Truthy(d.conclusion) <==> Truthy(raw.conclusion) || Truthy(raw.conclusionSynthetic))
        && (Truthy(raw.conclusion) ==> d.conclusion == raw.conclusion)
        && (!Truthy(raw.question) ==> d.question == raw.questionSynthetic)
        && (!Truthy(raw.conclusion) ==> d.conclusion == raw.conclusionSynthetic)
        && (raw.topicTags.None? ==> d.topicTags == [])
        && (raw.topicTags.Some? ==> d.topicTags == raw.topicTags.value)
        && (raw.governmentCode.None? ==> d.governmentCodeSections == [])
        && (raw.governmentCode.Some? ==> d.governmentCodeSections == raw.governmentCode.value)
        && (raw.regulations.None? ==> d.regulations == [])
        && (raw.regulations.Some? ==> d.regulations == raw.regulations.value)
        && d.date == raw.date
        && d.requestorName == raw.requestorName && d.requestorTitle == raw.requestorTitle
        && d.requestorCity == raw.requestorCity && d.documentType == raw.documentType
        && d.facts == raw.facts && d.analysis == raw.analysis
        && d.topicPrimary == raw.topicPrimary && d.topicSecondary == raw.topicSecondary
        && d.pageCount == raw.pageCount && d.wordCount == raw.wordCount
        && d.hasStandardFormat == raw.hasStandardFormat
        && |d.priorOpinions| == |ListOrEmpty(raw.priorOpinions)|
        && (forall k :: 0 <= k < |d.priorOpinions| ==>
              d.priorOpinions[k].opinionNumber == ListOrEmpty(raw.priorOpinions)[k]
              && (d.priorOpinions[k].existsInCorpus <==> d.priorOpinions[k].opinionNumber in opinions))
        && |d.citedBy| == |ListOrEmpty(raw.citedBy)|
        && (forall k :: 0 <= k < |d.citedBy| ==>
              d.citedBy[k].opinionNumber == ListOrEmpty(raw.citedBy)[k]
              && (d.citedBy[k].existsInCorpus <==> d.citedBy[k].opinionNumber in opinions))
        && d.pdfUrl == BuildPdfUrl(raw, baseUrl)
  {
  }
}
