/**
 The two response headers the OCI resolver reads: `Link` (`resolveNextPageURL`)
 and `WWW-Authenticate` (`parseAuthChallenge`), both in `internal/resolver/oci_resolver.go`.
 */
module RegistryHeaders {
  import opened Text
  import opened Model

  // ---------------------------------------------------------------- Link

  predicate SaysNext(attr: string) {
    Contains(ToLower(attr), "rel=\"next\"") || Contains(ToLower(attr), "rel=next")
  }

  predicate AnySaysNext(attrs: seq<string>) {
    attrs != [] && (SaysNext(attrs[0]) || AnySaysNext(attrs[1..]))
  }

  function Unbracket(seg: string): string {
    TrimSuffix(TrimPrefix(TrimSpace(seg), "<"), ">")
  }

  /** The target of one comma-separated part, when it is a usable next link. */
  function PartTarget(part: string): Option<string> {
    var segs := Split(TrimSpace(part), ';');
    if |segs| >= 2 && AnySaysNext(segs[1..]) && Unbracket(segs[0]) != "" then Some(Unbracket(segs[0])) else None
  }

  function FirstTarget(parts: seq<string>): Option<string> {
    if parts == [] then None
    else if PartTarget(parts[0]).Some? then PartTarget(parts[0])
    else FirstTarget(parts[1..])
  }

  function NextLinkTarget(header: string): Option<string> {
    if header == "" then None else FirstTarget(Split(header, ','))
  }

  /** The next page's URL, or "" when there is none. `resolve` stands for URL reference resolution. */
  function NextPageURL(resolve: (string, string) -> string, currentURL: string, header: string): string {
    match NextLinkTarget(header)
    case None => ""
    case Some(raw) => resolve(currentURL, raw)
  }

  method ResolveNextPageURL(resolve: (string, string) -> string, currentURL: string, linkHeader: string)
    returns (next: string)
    ensures next == NextPageURL(resolve, currentURL, linkHeader)
  {
    hide TrimSpace, Split, SaysNext, TrimPrefix, TrimSuffix;
    if linkHeader == "" {
      return "";
    }
    var parts := Split(linkHeader, ',');
    for p := 0 to |parts|
      invariant NextLinkTarget(linkHeader) == FirstTarget(parts[p..])
    {
      assert parts[p..][0] == parts[p] && parts[p..][1..] == parts[p + 1..];
      var segs := Split(TrimSpace(parts[p]), ';');
      if |segs| < 2 { continue; }
      var raw := TrimSuffix(TrimPrefix(TrimSpace(segs[0]), "<"), ">");
      var isNext := false;
      for a := 1 to |segs|
        invariant AnySaysNext(segs[1..]) == (isNext || AnySaysNext(segs[a..]))
      {
        assert segs[a..][0] == segs[a] && segs[a..][1..] == segs[a + 1..];
        if SaysNext(segs[a]) {
          isNext := true;
          break;
        }
      }
      if !isNext || raw == "" { continue; }
      return resolve(currentURL, raw);
    }
    return "";
  }

  lemma PartTargetIsClean(part: string)
    requires ',' !in part
    ensures
      var t := PartTarget(part);
      t.Some? ==> t.value != "" && ',' !in t.value && ';' !in t.value
  {
    hide TrimSpace, Split, AnySaysNext, ToLower;
    var trimmed := TrimSpace(part);
    TrimSpaceAddsNothing(part);
    SplitPartsFree(trimmed, ';');
    var seg := Split(trimmed, ';')[0];
    assert seg in Split(trimmed, ';');
    TrimSpaceAddsNothing(seg);
    assert forall c :: c in Unbracket(seg) ==> c in TrimSpace(seg);
  }

  lemma TrimSpaceAddsNothing(s: string)
    ensures forall c :: c in TrimSpace(s) ==> c in s
  {
    hide TrimBy;
    TrimByAddsNothing(s, IsSpace);
  }

  lemma {:induction false} FirstTargetIsClean(parts: seq<string>)
    requires forall p :: p in parts ==> ',' !in p
    ensures
      var t := FirstTarget(parts);
      t.Some? ==> t.value != "" && ',' !in t.value && ';' !in t.value
    decreases |parts|
  {
    hide PartTarget;
    if parts == [] {
    } else {
      assert parts[0] in parts;
      PartTargetIsClean(parts[0]);
      assert forall p :: p in parts[1..] ==> p in parts;
      FirstTargetIsClean(parts[1..]);
    }
  }

  const NEXT_ATTR := " rel=\"next\""

  /** A link: its target and its parameters, each with the space before it. */
  type Link = (string, seq<string>)

  function PrintLink(l: Link): string {
    ("<" + l.0 + ">") + [';'] + Join(l.1, ";")
  }

  /** Any parameters at all that neither end the link nor each other, the last one up to its last graphic character. */
  predicate CleanAttrs(attrs: seq<string>) {
    && attrs != [] && (forall a :: a in attrs ==> ',' !in a && ';' !in a)
    && var last := attrs[|attrs| - 1]; last != "" && !IsSpace(last[|last| - 1])
  }

  /** What a link target must be to be read back. */
  predicate CleanTarget(t: string) { t != "" && ',' !in t && ';' !in t }

  lemma NextAttrSaysNext()
    ensures AnySaysNext([NEXT_ATTR]) && CleanAttrs([NEXT_ATTR])
  {
    assert ToLower(NEXT_ATTR) == NEXT_ATTR;
    assert HasPrefix(NEXT_ATTR[1..], "rel=\"next\"");
  }

  /** `next` says next with or without quotes and in any case. */
  lemma SaysNextForms()
    ensures SaysNext(" rel=\"next\"") && SaysNext("rel=next") && SaysNext(" REL=\"NEXT\"") && SaysNext(" Rel=Next")
  {
    hide SaysNext;
    SaysQuotedNext(" rel=\"next\"", " rel=\"next\"");
    SaysQuotedNext(" REL=\"NEXT\"", " rel=\"next\"");
    SaysBareNext("rel=next", "rel=next", 0);
    SaysBareNext(" Rel=Next", " rel=next", 1);
  }

  /** None of the other usual relations says next. */
  lemma OtherRelationsSayNothing()
    ensures !SaysNext(" rel=\"prev\"") && !SaysNext(" rel=\"first\"") && !SaysNext(" rel=\"last\"") && !SaysNext(" rel=prev")
  {
    hide SaysNext;
    SaysOther(" rel=\"prev\"");
    SaysOther(" rel=\"first\"");
    SaysOther(" rel=\"last\"");
    SaysOther(" rel=prev");
  }

  lemma SaysQuotedNext(attr: string, lower: string)
    requires ToLower(attr) == lower && lower == " rel=\"next\""
    ensures SaysNext(attr)
  {
    assert HasPrefix(lower[1..], "rel=\"next\"");
  }

  lemma SaysBareNext(attr: string, lower: string, i: nat)
    requires ToLower(attr) == lower && i <= |lower| && lower[i..] == "rel=next"
    ensures SaysNext(attr)
  {
    assert HasPrefix(lower[i..], "rel=next");
  }

  /** No position of the attribute has `=` followed by `n`, or by a quote and `n`. */
  lemma SaysOther(attr: string)
    requires ToLower(attr) == attr
    requires forall i :: 0 <= i && i + 2 < |attr| && attr[i] == '=' ==> attr[i + 1] != 'n' && attr[i + 2] != 'n'
    ensures !SaysNext(attr)
  {
    forall i | 0 <= i <= |attr| ensures !HasPrefix(attr[i..], "rel=\"next\"") && !HasPrefix(attr[i..], "rel=next") {
      if i + 8 <= |attr| {
        var tail := attr[i..];
        assert tail[3] == attr[i + 3] && tail[4] == attr[i + 4] && tail[5] == attr[i + 5];
      }
    }
  }

  lemma UnbracketUndoesBrackets(t: string)
    ensures Unbracket("<" + t + ">") == t
  {
    hide TrimSpace;
    var seg := "<" + t + ">";
    assert seg[0] == '<' && seg[|seg| - 1] == '>';
    TrimSpaceKeepsGraphic(seg);
    assert TrimPrefix(seg, "<") == t + ">";
    assert (t + ">")[..|t|] == t;
  }

  lemma {:induction false} JoinedAttrs(attrs: seq<string>)
    requires CleanAttrs(attrs)
    ensures
      var text := Join(attrs, ";");
      text != "" && ',' !in text && !IsSpace(text[|text| - 1])
    decreases |attrs|
  {
    hide IsSpace;
    assert attrs[0] in attrs;
    if |attrs| == 1 {
    } else {
      var rest := attrs[1..];
      assert rest[|rest| - 1] == attrs[|attrs| - 1] && forall a :: a in rest ==> a in attrs;
      JoinedAttrs(rest);
    }
  }

  /** One printed link, padded on its left, yields its target if its parameters say next. */
  lemma LinkIsRead(l: Link, pad: string)
    requires CleanTarget(l.0) && CleanAttrs(l.1)
    requires forall k :: 0 <= k < |pad| ==> IsSpace(pad[k])
    ensures PartTarget(pad + PrintLink(l)) == if AnySaysNext(l.1) then Some(l.0) else None
  {
    hide TrimBy, Index, AnySaysNext, Unbracket, IsSpace, Join, Split;
    var text, seg, attrs := PrintLink(l), "<" + l.0 + ">", Join(l.1, ";");
    JoinedAttrs(l.1);
    assert text[0] == '<' && text[|text| - 1] == attrs[|attrs| - 1];
    assert !IsSpace('<') by { TrimsNothing('<'); }
    TrimByCore(pad, text, "", IsSpace);
    assert pad + text + "" == pad + text;
    SplitHead(seg, ';', attrs);
    SplitJoin(l.1, ';');
    var segs := [seg] + l.1;
    assert segs[1..] == l.1;
    UnbracketUndoesBrackets(l.0);
  }

  lemma TrimsNothing(c: char)
    requires Graphic(c)
    ensures !IsSpace(c)
  {
  }

  /** The target of the first link whose parameters say next. */
  function FirstNext(links: seq<Link>): Option<string> {
    if links == [] then None else if AnySaysNext(links[0].1) then Some(links[0].0) else FirstNext(links[1..])
  }

  ghost predicate CleanLinks(links: seq<Link>, pads: seq<string>) {
    && |links| == |pads|
    && (forall i :: 0 <= i < |links| ==> CleanTarget(links[i].0) && CleanAttrs(links[i].1))
    && (forall i, k :: 0 <= i < |pads| && 0 <= k < |pads[i]| ==> IsSpace(pads[i][k]) && pads[i][k] != ',')
  }

  function PrintLinks(links: seq<Link>, pads: seq<string>): (parts: seq<string>)
    requires |links| == |pads|
    ensures |parts| == |links|
  {
    if links == [] then [] else [pads[0] + PrintLink(links[0])] + PrintLinks(links[1..], pads[1..])
  }

  lemma {:induction false} PrintedLinksAreRead(links: seq<Link>, pads: seq<string>)
    requires CleanLinks(links, pads)
    ensures FirstTarget(PrintLinks(links, pads)) == FirstNext(links)
    ensures forall p :: p in PrintLinks(links, pads) ==> ',' !in p && p != ""
    decreases |links|
  {
    hide PartTarget, CleanTarget, CleanAttrs, IsSpace, PrintLink, AnySaysNext;
    if links == [] {
    } else {
      LinkIsRead(links[0], pads[0]);
      LinkHasNoComma(links[0], pads[0]);
      PrintedLinksAreRead(links[1..], pads[1..]);
    }
  }

  lemma LinkHasNoComma(l: Link, pad: string)
    requires CleanTarget(l.0) && CleanAttrs(l.1) && ',' !in pad
    ensures ',' !in pad + PrintLink(l) && pad + PrintLink(l) != ""
  {
    hide CleanAttrs, Join;
    JoinedAttrs(l.1);
  }

  /** In a header of several links with any parameters and padding, the first link that says next is found, and
      resolved against the given URL. */
  lemma NextAmongLinks(links: seq<Link>, pads: seq<string>, resolve: (string, string) -> string, currentURL: string)
    requires links != [] && CleanLinks(links, pads)
    ensures NextLinkTarget(Join(PrintLinks(links, pads), ",")) == FirstNext(links)
    ensures
      NextPageURL(resolve, currentURL, Join(PrintLinks(links, pads), ",")) ==
      if FirstNext(links).None? then "" else resolve(currentURL, FirstNext(links).value)
  {
    hide PrintLinks, FirstTarget, Split, CleanTarget, CleanAttrs;
    PrintedLinksAreRead(links, pads);
    var parts := PrintLinks(links, pads);
    assert parts[0] in parts;
    SplitJoin(parts, ',');
  }

  /** A printed next link is read back exactly when its target is not empty and holds no comma and no semicolon. */
  lemma NextLinkRoundTrip(t: string)
    ensures NextLinkTarget(PrintLink((t, [NEXT_ATTR]))) == Some(t) <==> CleanTarget(t)
  {
    hide PartTarget, Split, AnySaysNext, CleanAttrs;
    var link := (t, [NEXT_ATTR]);
    var header := PrintLink(link);
    NextAttrSaysNext();
    if CleanTarget(t) {
      LinkIsRead(link, "");
      LinkHasNoComma(link, "");
      assert "" + header == header;
      SplitWhole(header, ',');
    } else {
      SplitPartsFree(header, ',');
      FirstTargetIsClean(Split(header, ','));
    }
  }

  // ---------------------------------------------------------------- WWW-Authenticate

  datatype Challenge = Challenge(realm: string, service: string, scope: string) {
    function Get(name: string): string {
      if name == "realm" then realm else if name == "service" then service else if name == "scope" then scope else ""
    }

    function Set(name: string, value: string): Challenge {
      if name == "realm" then this.(realm := value)
      else if name == "service" then this.(service := value)
      else if name == "scope" then this.(scope := value)
      else this
    }
  }

  const NO_CHALLENGE := Challenge("", "", "")

  function ApplyPart(c: Challenge, part: string): Challenge {
    var kv := SplitN(TrimSpace(part), '=', 2);
    if |kv| != 2 then c
    else c.Set(ToLower(TrimSpace(kv[0])), TrimBy(TrimSpace(kv[1]), IsQuote))
  }

  function ApplyParts(parts: seq<string>): Challenge {
    if parts == [] then NO_CHALLENGE else ApplyPart(ApplyParts(parts[..|parts| - 1]), parts[|parts| - 1])
  }

  function AuthChallenge(header: string): Challenge {
    var h := TrimSpace(header);
    if header == "" || !HasPrefix(ToLower(h), "bearer") then NO_CHALLENGE
    else ApplyParts(Split(TrimSpace(h[|"Bearer"|..]), ','))
  }

  method ParseAuthChallenge(header: string) returns (c: Challenge)
    ensures c == AuthChallenge(header)
  {
    hide IsSpace, TrimBy, ToLower, Index, Split;
    c := NO_CHALLENGE;
    if header == "" {
      return;
    }
    var h := TrimSpace(header);
    if !HasPrefix(ToLower(h), "bearer") {
      return;
    }
    h := TrimSpace(h[|"Bearer"|..]);
    var parts := Split(h, ',');
    for i := 0 to |parts|
      invariant c == ApplyParts(parts[..i])
    {
      assert parts[..i + 1][..i] == parts[..i];
      var kv := SplitN(TrimSpace(parts[i]), '=', 2);
      if |kv| != 2 { continue; }
      var key := ToLower(TrimSpace(kv[0]));
      var val := TrimBy(TrimSpace(kv[1]), IsQuote);
      match key {
        case "realm" => c := c.(realm := val);
        case "service" => c := c.(service := val);
        case "scope" => c := c.(scope := val);
        case _ =>
      }
    }
    assert parts[..|parts|] == parts;
  }

  /** The names of the parameters, in any case. */
  predicate ParamName(name: string) {
    ToLower(name) == "realm" || ToLower(name) == "service" || ToLower(name) == "scope"
  }

  /** The values a quoted parameter can carry: no comma, and no quote at either end. */
  predicate CleanValue(v: string) { ',' !in v && Trimmed(v, IsQuote) }

  function PrintParam(p: (string, string)): string {
    p.0 + "=\"" + p.1 + "\""
  }

  /** The parts between the commas; every part after the first is padded on its left. */
  function PrintedParts(params: seq<(string, string)>, pad: string): seq<string> {
    if params == [] then [] else if |params| == 1 then [PrintParam(params[0])]
    else PrintedParts(params[..|params| - 1], pad) + [pad + PrintParam(params[|params| - 1])]
  }

  function PrintChallenge(scheme: string, params: seq<(string, string)>, pad: string): string {
    scheme + " " + Join(PrintedParts(params, pad), ",")
  }

  ghost predicate DistinctParams(params: seq<(string, string)>) {
    && (forall i :: 0 <= i < |params| ==> ParamName(params[i].0))
    && (forall i, j :: 0 <= i < j < |params| ==> ToLower(params[i].0) != ToLower(params[j].0))
  }

  lemma ParamNameFacts(name: string)
    requires ParamName(name)
    ensures name != "" && Graphic(name[0]) && Graphic(name[|name| - 1])
    ensures '=' !in name && ',' !in name
  {
    var lower := ToLower(name);
    assert name != "" && lower[0] == LowerChar(name[0]) && lower[|name| - 1] == LowerChar(name[|name| - 1]);
    forall i | 0 <= i < |name| ensures name[i] != '=' && name[i] != ',' {
      assert lower[i] == LowerChar(name[i]) && lower[i] in lower;
    }
  }

  lemma QuotedValue(v: string)
    requires CleanValue(v)
    ensures TrimBy(TrimSpace("\"" + v + "\""), IsQuote) == v
  {
    hide TrimSpace, IsSpace;
    TrimSpaceKeepsGraphic("\"" + v + "\"");
    if v == "" {
      assert TrimBy("\"\"", IsQuote) == "";
    } else {
      TrimByCore("\"", v, "\"", IsQuote);
    }
  }

  lemma ApplyPartReadsParam(c: Challenge, pad: string, p: (string, string))
    requires forall k :: 0 <= k < |pad| ==> IsSpace(pad[k])
    requires ParamName(p.0) && CleanValue(p.1)
    ensures ApplyPart(c, pad + PrintParam(p)) == c.Set(ToLower(p.0), p.1)
  {
    hide TrimBy, Index, CleanValue, ParamName, ToLower;
    var text, quoted := PrintParam(p), "\"" + p.1 + "\"";
    ParamNameFacts(p.0);
    assert text == p.0 + ['='] + quoted;
    assert text[0] == p.0[0] && text[|text| - 1] == '"';
    TrimByCore(pad, text, "", IsSpace);
    assert pad + text + "" == pad + text;
    SplitHead(p.0, '=', quoted);
    TrimSpaceKeepsGraphic(p.0);
    QuotedValue(p.1);
  }

  /** `c` holds exactly the given parameters. */
  ghost predicate Reads(c: Challenge, params: seq<(string, string)>) {
    && (forall i :: 0 <= i < |params| ==> c.Get(ToLower(params[i].0)) == params[i].1)
    && (forall name: string :: (forall i :: 0 <= i < |params| ==> ToLower(params[i].0) != name) ==> c.Get(name) == "")
  }

  lemma SetReads(c: Challenge, front: seq<(string, string)>, p: (string, string))
    requires Reads(c, front) && DistinctParams(front + [p])
    ensures Reads(c.Set(ToLower(p.0), p.1), front + [p])
  {
    hide ToLower;
    var params, key := front + [p], ToLower(p.0);
    assert params[|front|] == p;
    assert forall i :: 0 <= i < |front| ==> front[i] == params[i];
    assert key == "realm" || key == "service" || key == "scope";
    forall i | 0 <= i < |front| ensures c.Set(key, p.1).Get(ToLower(params[i].0)) == params[i].1 {
      assert c.Get(ToLower(front[i].0)) == front[i].1;
      assert ToLower(params[i].0) != key;
    }
    forall name: string | forall i :: 0 <= i < |params| ==> ToLower(params[i].0) != name
      ensures c.Set(key, p.1).Get(name) == ""
    {
      assert ToLower(params[|front|].0) != name;
      assert c.Get(name) == "";
    }
  }

  lemma {:induction false} ApplyPartsReadsParams(params: seq<(string, string)>, pad: string)
    requires DistinctParams(params)
    requires forall k :: 0 <= k < |pad| ==> IsSpace(pad[k])
    requires forall i :: 0 <= i < |params| ==> CleanValue(params[i].1)
    ensures Reads(ApplyParts(PrintedParts(params, pad)), params)
    decreases |params|
  {
    hide ApplyPart, PrintParam, CleanValue, ParamName, ToLower;
    if params == [] {
    } else {
      hide Reads;
      var n := |params| - 1;
      var front, p := params[..n], params[n];
      assert DistinctParams(front);
      ApplyPartsReadsParams(front, pad);
      var printed := PrintedParts(params, pad);
      assert printed[..|printed| - 1] == PrintedParts(front, pad);
      assert printed[|printed| - 1] == (if n == 0 then "" else pad) + PrintParam(p);
      var before := ApplyParts(PrintedParts(front, pad));
      ApplyPartReadsParam(before, if n == 0 then "" else pad, p);
      assert params == front + [p];
      SetReads(before, front, p);
    }
  }

  lemma PrintedParamShape(p: (string, string), pad: string)
    requires ParamName(p.0) && CleanValue(p.1)
    requires forall k :: 0 <= k < |pad| ==> IsSpace(pad[k])
    ensures
      var t := pad + PrintParam(p);
      ',' !in t && t != "" && t[|t| - 1] == '"'
    ensures Graphic(PrintParam(p)[0])
  {
    ParamNameFacts(p.0);
    assert ',' !in pad;
  }

  predicate QuoteEnded(t: string) { ',' !in t && t != "" && t[|t| - 1] == '"' }

  lemma {:induction false} PrintedPartsShape(params: seq<(string, string)>, pad: string)
    requires params != []
    requires DistinctParams(params)
    requires forall k :: 0 <= k < |pad| ==> IsSpace(pad[k])
    requires forall i :: 0 <= i < |params| ==> CleanValue(params[i].1)
    ensures
      var parts := PrintedParts(params, pad);
      && |parts| == |params| && parts[0] != "" && Graphic(parts[0][0])
      && (forall p :: p in parts ==> QuoteEnded(p))
    decreases |params|
  {
    hide CleanValue, ParamName, PrintParam, IsSpace, Graphic;
    var n := |params| - 1;
    PrintedParamShape(params[n], if n == 0 then "" else pad);
    assert "" + PrintParam(params[n]) == PrintParam(params[n]);
    if n > 0 {
      PrintedPartsShape(params[..n], pad);
    }
  }

  lemma {:induction false} JoinEnds(parts: seq<string>)
    requires parts != [] && forall i :: 0 <= i < |parts| ==> QuoteEnded(parts[i])
    ensures
      var s := Join(parts, ",");
      s != "" && parts[0] != "" && s[0] == parts[0][0] && s[|s| - 1] == '"'
    decreases |parts|
  {
    if |parts| == 1 {
    } else {
      JoinEnds(parts[1..]);
    }
  }

  predicate IsBearer(scheme: string) { ToLower(scheme) == "bearer" }

  lemma ChallengeIsRead(scheme: string, params: seq<(string, string)>, pad: string)
    requires IsBearer(scheme) && params != [] && DistinctParams(params)
    requires forall k :: 0 <= k < |pad| ==> IsSpace(pad[k])
    requires forall i :: 0 <= i < |params| ==> CleanValue(params[i].1)
    ensures AuthChallenge(PrintChallenge(scheme, params, pad)) == ApplyParts(PrintedParts(params, pad))
  {
    hide TrimBy, IsSpace, Index, Split, ApplyParts, PrintedParts, ParamName, CleanValue, ToLower, Join, IsBearer;
    var parts := PrintedParts(params, pad);
    PrintedPartsShape(params, pad);
    JoinEnds(parts);
    var body, header := Join(parts, ","), PrintChallenge(scheme, params, pad);
    BearerPrefix(scheme, header);
    assert header[0] == scheme[0] && header[|header| - 1] == body[|body| - 1];
    TrimSpaceKeepsGraphic(header);
    assert header[6..] == " " + body + "";
    assert IsSpace(' ') by { SpaceIsSpace(); }
    assert Trimmed(body, IsSpace) by { GraphicEndsTrimmed(body); }
    TrimByCore(" ", body, "", IsSpace);
    SplitJoin(parts, ',');
  }

  lemma SpaceIsSpace()
    ensures IsSpace(' ')
  {
  }

  lemma GraphicEndsTrimmed(s: string)
    requires s != "" && Graphic(s[0]) && Graphic(s[|s| - 1])
    ensures Trimmed(s, IsSpace)
  {
  }

  lemma BearerPrefix(scheme: string, h: string)
    requires IsBearer(scheme) && scheme <= h
    ensures |scheme| == 6 && Graphic(scheme[0]) && HasPrefix(ToLower(h), "bearer")
  {
    var lower := ToLower(scheme);
    assert |lower| == |scheme| && lower[0] == LowerChar(scheme[0]);
    assert forall i :: 0 <= i < 6 ==> h[i] == scheme[i] && ToLower(h)[i] == lower[i];
  }

  lemma {:induction false} ChallengeFieldsAreClean(parts: seq<string>, name: string)
    requires forall p :: p in parts ==> ',' !in p
    ensures CleanValue(ApplyParts(parts).Get(name))
    decreases |parts|
  {
    hide TrimBy, TrimSpace, IsQuote, ToLower;
    if parts == [] {
    } else {
      var part := parts[|parts| - 1];
      ChallengeFieldsAreClean(parts[..|parts| - 1], name);
      assert part in parts;
      TrimSpaceAddsNothing(part);
      var kv := SplitN(TrimSpace(part), '=', 2);
      if |kv| == 2 {
        assert ',' !in kv[1];
        TrimSpaceAddsNothing(kv[1]);
        var m, n := TrimBySlice(TrimSpace(kv[1]), IsQuote);
      }
    }
  }

  /** A printed Bearer challenge reads back, in any parameter order and with scheme and names in any case, exactly
      when every value is clean; parameters that are not given are read as empty. */
  lemma ChallengeRoundTrip(scheme: string, params: seq<(string, string)>, pad: string)
    requires IsBearer(scheme) && params != [] && DistinctParams(params)
    requires forall k :: 0 <= k < |pad| ==> IsSpace(pad[k])
    ensures
      var c := AuthChallenge(PrintChallenge(scheme, params, pad));
      && ((forall i :: 0 <= i < |params| ==> c.Get(ToLower(params[i].0)) == params[i].1) <==>
          (forall i :: 0 <= i < |params| ==> CleanValue(params[i].1)))
      && ((forall i :: 0 <= i < |params| ==> CleanValue(params[i].1)) ==> Reads(c, params))
  {
    hide AuthChallenge, PrintChallenge, CleanValue, ApplyParts, ToLower, IsBearer;
    if forall i :: 0 <= i < |params| ==> CleanValue(params[i].1) {
      ChallengeIsRead(scheme, params, pad);
      ApplyPartsReadsParams(params, pad);
    } else {
      var i :| 0 <= i < |params| && !CleanValue(params[i].1);
      ChallengeIsClean(PrintChallenge(scheme, params, pad), ToLower(params[i].0));
    }
  }

  /** A challenge of another scheme says nothing. */
  lemma OtherSchemesSayNothing(header: string)
    requires |header| >= 6 && Graphic(header[0]) && Graphic(header[|header| - 1]) && ToLower(header[..6]) != "bearer"
    ensures AuthChallenge(header) == Challenge("", "", "")
  {
    hide TrimSpace, Split;
    TrimSpaceKeepsGraphic(header);
    assert ToLower(header)[..6] == ToLower(header[..6]);
  }

  lemma ChallengeIsClean(header: string, name: string)
    ensures CleanValue(AuthChallenge(header).Get(name))
  {
    hide TrimSpace, Split, ToLower, ApplyParts;
    var h := TrimSpace(header);
    if header != "" && HasPrefix(ToLower(h), "bearer") {
      var body := TrimSpace(h[|"Bearer"|..]);
      SplitPartsFree(body, ',');
      ChallengeFieldsAreClean(Split(body, ','), name);
    }
  }
}
