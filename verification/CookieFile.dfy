/** The cookies.txt form of the jar: cookie_records_text prints it, and
    cookie_load_records reads it back through cookie_set. */
module CookieFile {
  import opened CText
  import opened CookieText
  import opened Wrappers
  import opened CookieStore

  const HTTPONLY_PREFIX := "#HttpOnly_"
  const COOKIE_MAX_LINE := 8000

  // ---- printing ----

  /** The domain as a file writes it: dotted exactly when subdomains get the cookie. */
  function PrintedDomain(r: Rec): string {
    (if r.hostOnly then "" else ".") + StripDot(r.domain)
  }

  function PrintedFields(r: Rec): seq<string> {
    [PrintedDomain(r), Flag(!r.hostOnly), r.path, Flag(r.secure), Dec(r.expires), r.name, r.value]
  }

  function PrintedLine(r: Rec): string {
    (if r.httpOnly then HTTPONLY_PREFIX else "") + Join(PrintedFields(r))
  }

  function PrintedLines(rs: seq<Rec>): (lines: seq<string>)
    ensures |lines| == |rs|
    ensures forall i :: 0 <= i < |rs| ==> lines[i] == PrintedLine(rs[i]) + "\n"
  {
    seq(|rs|, i requires 0 <= i < |rs| => PrintedLine(rs[i]) + "\n")
  }

  /** The text of a cookies.txt file, header aside. */
  function FileText(rs: seq<Rec>): string {
    Cat(PrintedLines(rs))
  }

  /** Is there a k-th TAB in line? */
  predicate HasTab(line: string, k: nat)
    decreases |line|
  {
    var stop := Find(line, '\t');
    k == 0 || (stop < |line| && HasTab(line[stop + 1..], k - 1))
  }

  /** The line up to its k-th TAB, or all of it. */
  function UpToTab(line: string, k: nat): string
    decreases |line|
  {
    var stop := Find(line, '\t');
    if k == 0 then ""
    else if k == 1 || stop == |line| then line[..stop]
    else line[..stop + 1] + UpToTab(line[stop + 1..], k - 1)
  }

  /** cookie_is_host_only: any flag but TRUE, read without case, keeps subdomains out. */
  predicate IsHostOnly(line: string) {
    !EqualNoCase(FieldOf(line, 1), "TRUE")
  }

  /** cookie_is_secure: only FALSE, in any case, lets it go over http. */
  predicate IsSecure(line: string) {
    !EqualNoCase(FieldOf(line, 3), "FALSE")
  }

  /** What cookie_records_text writes for a line of the jar: the eighth field
      becomes a prefix, and the domain gets its dot or loses it. */
  function PrintLine(line: string): string {
    var rec := UpToTab(line, 7);
    (if HasTab(line, 7) then HTTPONLY_PREFIX else "")
    + (if IsHostOnly(rec) then "" else ".") + StripDot(rec)
  }

  // ---- reading ----

  /** What a line of a file comes to. A blank line, a comment that a known tool
      writes and an expired cookie are passed over. */
  datatype Parsed =
    | PassedOver
    | Refused
    | ToSet(domain: string, name: string, value: string, path: string, attr: Attr)

  function CountTabs(line: string): nat {
    if line == "" then 0 else CountTabs(line[1..]) + if line[0] == '\t' then 1 else 0
  }

  /** The expiry's digits, read until the next one could overflow. */
  function ReadDigits(digits: string, when: nat): (n: nat)
    requires AllDigits(digits)
    ensures when <= INT64_MAX ==> n <= INT64_MAX
  {
    if digits == "" || when >= INT64_MAX / 10 - 9 then when
    else ReadDigits(digits[1..], when * 10 + (digits[0] as int - '0' as int))
  }

  /** cookie_record_expiry: 0, a session, when the field is not all digits. */
  function Expiry(field: string): Int64 {
    if field != "" && AllDigits(field) then ReadDigits(field, 0) else 0
  }

  predicate BlankLine(line: string) {
    forall i :: 0 <= i < |line| ==> IsBlank(line[i])
  }

  const KNOWN_COMMENTS: seq<string> := [
    FIRST_HEADER,
    "# HTTP Cookie File",
    "# HTTP cookie file.",
    SECOND_HEADER,
    "# https://curl.se/docs/http-cookies.html",
    "# https://curl.haxx.se/docs/http-cookies.html",
    "# http://curl.haxx.se/rfc/cookie_spec.html",
    "# https://curl.haxx.se/rfc/cookie_spec.html",
    "# This file was generated by libcurl! Edit at your own risk.",
    "# http://www.netscape.com/newsref/std/cookie_spec.html",
    "# This is a generated file! Do not edit.",
    "# This file is generated by yt-dlp. Do not edit.",
    "# Edit at your own risk."
  ]

  predicate IsKnown(text: string) {
    text in KNOWN_COMMENTS
  }

  const WGET_COMMENT := "# Generated by Wget on "
  const COMMENT_MAX := 127

  datatype Norm = Norm(text: string, cut: bool)

  predicate IsBlank(c: char) {
    c == ' ' || c == '\t'
  }

  /** A comment with its runs of blanks made one space, behind what is done of it. */
  function Squeeze(line: string, done: string): Norm {
    if line == "" then Norm(done, false)
    else if IsBlank(line[0]) && done != "" && done[|done| - 1] == ' ' then Squeeze(line[1..], done)
    else if |done| >= COMMENT_MAX then Norm(done, true)
    else Squeeze(line[1..], done + [if IsBlank(line[0]) then ' ' else line[0]])
  }

  function TrimSpace(text: string): string {
    if text != "" && text[|text| - 1] == ' ' then text[..|text| - 1] else text
  }

  predicate KnownNorm(text: string, cut: bool) {
    StartsWith(text, WGET_COMMENT) || (!cut && IsKnown(text))
  }

  /** cookie_known_comment. */
  predicate KnownComment(line: string) {
    var norm := Squeeze(line, "");
    KnownNorm(TrimSpace(norm.text), norm.cut)
  }

  /** The fields of a line past its HttpOnly mark, at the time now. */
  function ParseRecord(rec: string, httpOnly: bool, now: Int64): Parsed {
    var tabs := CountTabs(rec);
    if tabs < 6 || FieldOf(rec, 5) == "" then Refused
    else if tabs > 7 || (tabs == 7 && FieldOf(rec, 7) != HTTPONLY_FIELD) then Refused
    else if !AllDigits(FieldOf(rec, 4)) then Refused
    else if |FieldOf(rec, 0)| >= COOKIE_MAX_DOMAIN || |FieldOf(rec, 2)| >= COOKIE_MAX_PATH
            || |FieldOf(rec, 5)| >= COOKIE_MAX_PAIR + 1 || |FieldOf(rec, 6)| >= 8192 then Refused
    else
      var expires := Expiry(FieldOf(rec, 4));
      if expires != 0 && expires <= now then PassedOver
      else ToSet(FieldOf(rec, 0), FieldOf(rec, 5), FieldOf(rec, 6), FieldOf(rec, 2),
                 Attr(IsHostOnly(rec), IsSecure(rec), httpOnly || tabs == 7, expires))
  }

  /** What cookie_load_records makes of one line. */
  function ParseLine(line: string, now: Int64): Parsed {
    if |line| >= COOKIE_MAX_LINE || '\0' in line || '\r' in line then Refused
    else if BlankLine(line) then PassedOver
    else
      var httpOnly := StartsWith(line, HTTPONLY_PREFIX);
      var rec := if httpOnly then line[|HTTPONLY_PREFIX|..] else line;
      if rec != "" && rec[0] == '#' then if KnownComment(rec) then PassedOver else Refused
      else ParseRecord(rec, httpOnly, now)
  }

  /** How a machine reads domains: cookie_host, and the public suffixes without
      their leading dot. */
  datatype World = World(cookieHost: string -> Option<string>, suffixes: string -> bool, now: Int64, maxLen: nat)

  /** cookie_domain_is_suffix ignores a leading dot. */
  predicate IsSuffix(w: World, domain: string) {
    w.suffixes(StripDot(domain))
  }

  const SEEN_LEN := 32768
  const INT_MAX := 0x7FFF_FFFF

  /** A load under way: the jar, the records of this load alone when there is
      memory for them, and how many lines were refused. */
  datatype Loading = Loading(jar: JarState, seen: Option<JarState>, refused: nat)

  predicate LoadingOk(l: Loading) {
    && |l.jar.recs| == |l.jar.stamps|
    && (l.seen.Some? ==> |l.seen.value.recs| == |l.seen.value.stamps|)
  }

  function StartLoad(jar: JarState, mem: bool): Loading {
    Loading(jar, if mem then Some(EMPTY_JAR) else None, 0)
  }

  /** cookie_refuse: the count saturates. */
  function OneMore(refused: nat): nat {
    if refused < INT_MAX then refused + 1 else refused
  }

  function Refuse(l: Loading): Loading {
    l.(refused := OneMore(l.refused))
  }

  /** Did this load already meet the record of this name, host and path? */
  predicate IsRepeated(seen: Option<JarState>, name: string, host: string, path: string) {
    seen.Some? && FindExact(seen.value.recs, name, host, path) >= 0
  }

  /** The records met, and one more, as a session cookie without a value. */
  function Note(w: World, seen: Option<JarState>, name: string, host: string, path: string): (t: Option<JarState>)
    requires seen.Some? ==> |seen.value.recs| == |seen.value.stamps|
    ensures t.Some? == seen.Some? && (t.Some? ==> |t.value.recs| == |t.value.stamps|)
  {
    match seen
    case None => None
    case Some(s) => Some(SetPlain(s, SEEN_LEN, NewRec(host, IsSuffix(w, host), name, "", path, SESSION)).GetOr(s))
  }

  /** A record to set. The last one of its name, host and path wins, but it
      counts as refused, because a rewrite would lose the others. */
  function SetLoaded(w: World, l: Loading, host: string, name: string, value: string, path: string, attr: Attr)
    : (t: Loading)
    requires LoadingOk(l)
    ensures LoadingOk(t)
  {
    var repeated := IsRepeated(l.seen, name, host, path);
    var counted := if repeated then Refuse(l) else l;
    match SetPlain(l.jar, w.maxLen, NewRec(host, IsSuffix(w, host), name, value, path, attr))
    case None => Refuse(counted)
    case Some(jar) => Loading(jar, if repeated then l.seen else Note(w, l.seen, name, host, path), counted.refused)
  }

  /** One line read. */
  function LoadLine(w: World, l: Loading, line: string): (t: Loading)
    requires LoadingOk(l)
    ensures LoadingOk(t)
  {
    match ParseLine(line, w.now)
    case PassedOver => l
    case Refused => Refuse(l)
    case ToSet(domain, name, value, path, attr) =>
      match w.cookieHost(domain)
      case None => Refuse(l)
      case Some(host) => SetLoaded(w, l, host, name, value, path, attr)
  }

  /** The lines of a file, read one by one. */
  function Load(w: World, l: Loading, lines: seq<string>): (t: Loading)
    requires LoadingOk(l)
    ensures LoadingOk(t)
    decreases |lines|
  {
    if lines == [] then l else Load(w, LoadLine(w, l, lines[0]), lines[1..])
  }

  /** The lines of a file, without their LF and the CR before it. */
  function SplitLines(text: string): (lines: seq<string>)
    ensures lines != []
    decreases |text|
  {
    var stop := Find(text, '\n');
    if stop == |text| then [ChopCr(text)]
    else [ChopCr(text[..stop])] + SplitLines(text[stop + 1..])
  }

  function ChopCr(line: string): string {
    if line != "" && line[|line| - 1] == '\r' then line[..|line| - 1] else line
  }

  const BOM := "\U{EF}\U{BB}\U{BF}"

  function ChopBom(line: string): string {
    if StartsWith(line, BOM) then line[|BOM|..] else line
  }

  /** The lines that a load reads: the first one loses its UTF-8 mark. */
  function FileLines(text: string): seq<string> {
    var lines := SplitLines(text);
    [ChopBom(lines[0])] + lines[1..]
  }

  const FIRST_HEADER := "# Netscape HTTP Cookie File"
  const SECOND_HEADER := "# Written by HTTrack Website Copier"

  /** The file that cookie_write writes. */
  function WrittenFile(rs: seq<Rec>): string {
    FIRST_HEADER + "\n" + (SECOND_HEADER + "\n" + FileText(rs))
  }
}
