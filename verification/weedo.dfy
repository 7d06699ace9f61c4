/** The client glue (weedo.go): the client with its filer registry, volume lookup by
    file id, and the header values of an uploaded form file. */
module Weedo {
  import opened GoBase
  import opened Strconv
  import opened Strings
  import opened Fids
  import opened MasterOps

  /** A filer handle. `handle` is an allocation number standing for the identity of
      the `*Filer` value. `NewFiler` is not part of this model; it is assumed to
      return a newly allocated `*Filer` on every call, which is what makes each
      allocation number stand for a distinct pointer. */
  datatype Filer = Filer(url: GoString, handle: nat)

  /** A client: its master, the registry of filers by normalised url, and the
      number of filer handles allocated so far. */
  datatype Client = Client(master: Master, filers: map<GoString, Filer>, nextHandle: nat)

  /** The url normalisation `NewFiler` applies, which is not part of this model. */
  type Normalise = GoString -> GoString

  /** Every registered filer sits under its own url and was allocated earlier. */
  predicate Registered(c: Client)
  {
    forall u :: u in c.filers ==> c.filers[u].url == u && c.filers[u].handle < c.nextHandle
  }

  /** The filer loop of `NewClient`: each url gets a fresh handle under its
      normalised url, so of two urls that normalise alike the later one wins. */
  function RegisterAll(c: Client, urls: seq<GoString>, norm: Normalise): (c': Client)
    ensures c'.master == c.master
    ensures c'.nextHandle == c.nextHandle + |urls|
    ensures forall u :: u in c'.filers <==> u in c.filers || exists i :: 0 <= i < |urls| && norm(urls[i]) == u
    ensures Registered(c) ==> Registered(c')
  {
    if |urls| == 0 then c
    else
      var p := RegisterAll(c, urls[..|urls| - 1], norm);
      var u := norm(urls[|urls| - 1]);
      assert forall i :: 0 <= i < |urls| - 1 ==> urls[..|urls| - 1][i] == urls[i];
      Client(p.master, p.filers[u := Filer(u, p.nextHandle)], p.nextHandle + 1)
  }

  /** `NewClient`: a master for `masterAddr` with an empty cache and one registered
      filer per distinct normalised url. */
  function NewClient(masterAddr: GoString, filerUrls: seq<GoString>, norm: Normalise): (c: Client)
    ensures c.master == NewMaster(masterAddr)
    ensures Registered(c)
    ensures forall u :: u in c.filers <==> exists i :: 0 <= i < |filerUrls| && norm(filerUrls[i]) == u
  {
    RegisterAll(Client(NewMaster(masterAddr), map[], 0), filerUrls, norm)
  }

  /** The handle registered for a url is the one allocated for its last occurrence. */
  lemma {:induction false} LastDuplicateWins(c: Client, urls: seq<GoString>, norm: Normalise, i: nat)
    requires i < |urls|
    requires forall j :: i < j < |urls| ==> norm(urls[j]) != norm(urls[i])
    ensures RegisterAll(c, urls, norm).filers[norm(urls[i])] == Filer(norm(urls[i]), c.nextHandle + i)
  {
    var p := urls[..|urls| - 1];
    if i < |urls| - 1 {
      assert p[i] == urls[i];
      forall j | i < j < |p| ensures norm(p[j]) != norm(p[i]) {
        assert p[j] == urls[j];
      }
      LastDuplicateWins(c, p, norm, i);
    }
  }

  /** `Client.Filer`: the registered handle for the normalised url if there is one,
      with the client unchanged; otherwise a fresh handle, registered under that one
      url and nothing else. */
  function ClientFiler(c: Client, url: GoString, norm: Normalise): (r: (Client, Filer))
    ensures norm(url) in c.filers ==> r.0 == c && r.1 == c.filers[norm(url)]
    ensures norm(url) !in c.filers ==>
              && r.1 == Filer(norm(url), c.nextHandle)
              && r.0.filers == c.filers[norm(url) := r.1]
              && r.0.master == c.master && r.0.nextHandle == c.nextHandle + 1
    ensures r.0.filers.Keys == c.filers.Keys + {norm(url)}
    ensures r.0.filers[norm(url)] == r.1
    ensures Registered(c) ==> Registered(r.0)
  {
    var made := Filer(norm(url), c.nextHandle);
    if made.url in c.filers then (c, c.filers[made.url])
    else (Client(c.master, c.filers[made.url := made], c.nextHandle + 1), made)
  }

  /** A fresh filer's handle differs from every registered one. */
  lemma FreshHandleIsNew(c: Client, url: GoString, norm: Normalise)
    requires Registered(c) && norm(url) !in c.filers
    ensures forall u :: u in c.filers ==> c.filers[u].handle != ClientFiler(c, url, norm).1.handle
  {
  }

  /** Asking twice for the same url gives the same handle and changes nothing the
      second time. */
  lemma FilerTwice(c: Client, url: GoString, norm: Normalise)
    ensures var (c1, f1) := ClientFiler(c, url, norm);
      var (c2, f2) := ClientFiler(c1, url, norm);
      f2 == f1 && c2 == c1
  {
  }

  /** `Client.Volume`: parse the file id; a parse error is returned and nothing is
      sent; otherwise the master is asked for the volume id in canonical decimal. */
  function ClientVolume(c: Client, id: GoString, collection: GoString, dc: GoString,
                        dir: Request -> Result<LookupResp, GoString>): (o: Outcome<Volume>)
    ensures ParseFid(id).Failure? ==> o.result == Failure(ParseFid(id).error) && o.sent == []
    ensures ParseFid(id).Success? ==>
              o == Lookup(c.master, FormatUint(ParseFid(id).value.id, 10), collection, dc, dir)
  {
    match ParseFid(id)
    case Failure(e) => Outcome(Failure(e), [])
    case Success(fid) => Lookup(c.master, FormatUint(fid.id, 10), collection, dc, dir)
  }

  /** The volume id sent is the canonical decimal of the parsed id: no leading
      zeros, and it reads back as the same number. */
  lemma VolumeIdCanonical(c: Client, id: GoString, collection: GoString, dc: GoString,
                          dir: Request -> Result<LookupResp, GoString>)
    requires ParseFid(id).Success?
    ensures var o := ClientVolume(c, id, collection, dc, dir);
      var v := o.sent[0].query["volumeId"];
      && |o.sent| == 1 && o.sent[0].host == c.master.url && o.sent[0].path == "/dir/lookup"
      && ParseUint(v, 10, 32) == Success(ParseFid(id).value.id)
      && (|v| > 1 ==> v[0] != '0')
  {
    Pow2Constants();
  }

  /** `"007,01637037d6"` is looked up as volume `"7"`. */
  lemma LeadingZerosDropped(c: Client, id: GoString, collection: GoString, dc: GoString,
                            dir: Request -> Result<LookupResp, GoString>)
    requires id == "007,01637037d6"
    ensures ClientVolume(c, id, collection, dc, dir).sent ==
              [Get(c.master.url, "/dir/lookup", LookupArgs("7", collection))]
  {
    var fid := Fid(7, 0x01, 0x637037d6);
    assert ParseFid(id) == Success(fid) by { ParsePaddedExample(); }
    assert FormatUint(7, 10) == "7" by { SevenInDecimal(); }
    var o := ClientVolume(c, id, collection, dc, dir);
    assert o == Lookup(c.master, FormatUint(fid.id, 10), collection, dc, dir);
  }

  lemma SevenInDecimal()
    ensures FormatUint(7, 10) == "7"
  {
  }

  // Quoting in form headers

  /** The replacement of one byte: a backslash and a double quote are escaped with
      a backslash, every other byte is kept. */
  function EscapeByte(b: Byte): GoString
  {
    if b == '\\' then ['\\', '\\'] else if b == '"' then ['\\', '"'] else [b]
  }

  /** `escapeQuotes`: one left-to-right pass replacing each byte by EscapeByte. */
  function EscapeQuotes(s: GoString): (r: GoString)
    ensures |r| >= |s|
  {
    if |s| == 0 then []
    else EscapeByte(s[0]) + EscapeQuotes(s[1..])
  }

  /** Each backslash and each double quote gains one byte; nothing else grows. */
  lemma {:induction false} EscapeLength(s: GoString)
    ensures |EscapeQuotes(s)| == |s| + Count(s, '\\') + Count(s, '"')
  {
    if |s| > 0 {
      EscapeLength(s[1..]);
    }
  }

  /** A string with neither a backslash nor a double quote is left as it is. */
  lemma {:induction false} EscapeIdentity(s: GoString)
    requires '\\' !in s && '"' !in s
    ensures EscapeQuotes(s) == s
  {
    if |s| > 0 {
      assert s[0] != '\\' && s[0] != '"';
      assert '\\' !in s[1..] && '"' !in s[1..];
      EscapeIdentity(s[1..]);
      assert s == [s[0]] + s[1..];
    }
  }

  /** Escaping works byte by byte: it distributes over concatenation. */
  lemma {:induction false} EscapeAppend(a: GoString, b: GoString)
    ensures EscapeQuotes(a + b) == EscapeQuotes(a) + EscapeQuotes(b)
  {
    if |a| > 0 {
      assert (a + b)[1..] == a[1..] + b;
      assert (a + b)[0] == a[0];
      EscapeAppend(a[1..], b);
      calc {
        EscapeQuotes(a + b);
        EscapeByte(a[0]) + EscapeQuotes(a[1..] + b);
        EscapeByte(a[0]) + (EscapeQuotes(a[1..]) + EscapeQuotes(b));
        (EscapeByte(a[0]) + EscapeQuotes(a[1..])) + EscapeQuotes(b);
      }
    } else {
      assert a + b == b;
    }
  }

  /** Reading a quoted value after its opening quote: an escaped byte stands for
      itself, an unescaped `"` ends the value. Gives the value and what follows the
      closing quote; None if the text ends first or an escape is not one that
      EscapeByte writes. */
  function ReadQuoted(t: GoString): Option<(GoString, GoString)>
  {
    if |t| == 0 then None
    else if t[0] == '"' then Some(([], t[1..]))
    else if t[0] == '\\' then
      if |t| >= 2 && (t[1] == '\\' || t[1] == '"') then
        match ReadQuoted(t[2..])
        case None => None
        case Some((v, rest)) => Some(([t[1]] + v, rest))
      else None
    else
      match ReadQuoted(t[1..])
      case None => None
      case Some((v, rest)) => Some(([t[0]] + v, rest))
  }

  /** Escaping is undone by ReadQuoted: an escaped value followed by a quote reads
      back as exactly the original value, and the reader stops at that quote. */
  lemma {:induction false} EscapeRoundTrip(x: GoString, rest: GoString)
    ensures ReadQuoted(EscapeQuotes(x) + (['"'] + rest)) == Some((x, rest))
  {
    if |x| == 0 {
      assert EscapeQuotes(x) + (['"'] + rest) == ['"'] + rest;
    } else {
      var tail := EscapeQuotes(x[1..]) + (['"'] + rest);
      assert EscapeQuotes(x) + (['"'] + rest) == EscapeByte(x[0]) + tail;
      EscapeRoundTrip(x[1..], rest);
      ReadEscapedByte(x[0], tail);
      assert x == [x[0]] + x[1..];
    }
  }

  /** ReadQuoted reads one escaped byte back as that byte and carries on. */
  lemma ReadEscapedByte(c: Byte, tail: GoString)
    requires ReadQuoted(tail).Some?
    ensures ReadQuoted(EscapeByte(c) + tail) ==
              Some(([c] + ReadQuoted(tail).value.0, ReadQuoted(tail).value.1))
  {
    var t := EscapeByte(c) + tail;
    if c == '\\' || c == '"' {
      assert t[0] == '\\' && t[1] == c && t[2..] == tail;
    } else {
      assert t[0] == c && t[1..] == tail;
    }
  }

  /** The text of the Content-Disposition format before the field name. */
  const NamePrefix: GoString := "form-data; name=\""

  /** The text between the closing quote of the field name and the file name. */
  const FilenamePrefix: GoString := "; filename=\""

  /** The Content-Disposition value of a form file part:
      `form-data; name="<field>"; filename="<file>"` with both values escaped. */
  function ContentDisposition(fieldname: GoString, filename: GoString): GoString
  {
    NamePrefix + EscapeQuotes(fieldname) + "\"" + FilenamePrefix + EscapeQuotes(filename) + "\""
  }

  /** The text after `prefix`, if `v` starts with it. */
  function StripPrefix(prefix: GoString, v: GoString): (r: Option<GoString>)
    ensures r.Some? <==> |prefix| <= |v| && v[..|prefix|] == prefix
    ensures r.Some? ==> v == prefix + r.value
  {
    if |prefix| <= |v| && v[..|prefix|] == prefix then Some(v[|prefix|..]) else None
  }

  lemma StripPrefixConcat(prefix: GoString, rest: GoString)
    ensures StripPrefix(prefix, prefix + rest) == Some(rest)
  {
    assert (prefix + rest)[..|prefix|] == prefix;
    assert (prefix + rest)[|prefix|..] == rest;
  }

  /** Reading what follows the field name: the file-name prefix and the quoted
      file name, which must end the value. */
  function ParseFilenamePart(t: GoString): Option<GoString>
  {
    match StripPrefix(FilenamePrefix, t)
    case None => None
    case Some(afterMid) =>
      match ReadQuoted(afterMid)
      case None => None
      case Some((file, end)) => if |end| == 0 then Some(file) else None
  }

  /** Reading a Content-Disposition value back into its field name and file name. */
  function ParseDisposition(v: GoString): Option<(GoString, GoString)>
  {
    match StripPrefix(NamePrefix, v)
    case None => None
    case Some(afterHead) =>
      match ReadQuoted(afterHead)
      case None => None
      case Some((field, afterField)) =>
        match ParseFilenamePart(afterField)
        case None => None
        case Some(file) => Some((field, file))
  }

  lemma FilenamePartRoundTrip(filename: GoString)
    ensures ParseFilenamePart(FilenamePrefix + EscapeQuotes(filename) + "\"") == Some(filename)
  {
    var quoted := EscapeQuotes(filename) + "\"";
    assert FilenamePrefix + EscapeQuotes(filename) + "\"" == FilenamePrefix + quoted;
    StripPrefixConcat(FilenamePrefix, quoted);
    assert quoted == EscapeQuotes(filename) + (['"'] + []);
    EscapeRoundTrip(filename, []);
  }

  /** The header names both values unambiguously, whatever quotes or backslashes
      they contain: parsing it gives the field name and the file name back. */
  lemma DispositionRoundTrip(fieldname: GoString, filename: GoString)
    ensures ParseDisposition(ContentDisposition(fieldname, filename)) == Some((fieldname, filename))
  {
    var tail := FilenamePrefix + EscapeQuotes(filename) + "\"";
    var rest := EscapeQuotes(fieldname) + (['"'] + tail);
    assert ContentDisposition(fieldname, filename) == NamePrefix + rest;
    StripPrefixConcat(NamePrefix, rest);
    EscapeRoundTrip(fieldname, tail);
    FilenamePartRoundTrip(filename);
  }

  /** The MIME type of a form file: the caller's, or `application/octet-stream`
      when the caller gives none. */
  function ContentType(mime: GoString): (r: GoString)
    ensures |r| > 0
    ensures |mime| > 0 ==> r == mime
    ensures |mime| == 0 ==> r == "application/octet-stream"
  {
    if |mime| == 0 then "application/octet-stream" else mime
  }

  /** The header `createFormFile` builds, with one value per key. */
  function FormFileHeader(fieldname: GoString, filename: GoString, mime: GoString): (h: map<GoString, GoString>)
    ensures h.Keys == {"Content-Disposition", "Content-Type"}
    ensures h["Content-Type"] == ContentType(mime)
    ensures ParseDisposition(h["Content-Disposition"]) == Some((fieldname, filename))
  {
    DispositionRoundTrip(fieldname, filename);
    map["Content-Disposition" := ContentDisposition(fieldname, filename),
        "Content-Type" := ContentType(mime)]
  }
}
