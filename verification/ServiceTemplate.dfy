/** Templates for the host names of peer services, such as `{service}.{region}.int.skyr.cloud`. */
module ServiceTemplate {
  import opened Prelude
  import opened Text
  import opened Ids

  /** What a template is made of. */
  datatype Token = Lit(c: char) | Service | Region

  datatype Error = Empty | UnmatchedOpen | UnmatchedClose | UnknownPlaceholder(name: string) | MissingService

  const SERVICE := Braced("service")
  const REGION := Braced("region")

  /** A placeholder as it is written: `{name}`. */
  function Braced(name: string): string {
    "{" + name + "}"
  }

  predicate BraceFree(s: string) {
    '{' !in s && '}' !in s
  }

  ghost predicate PlainTokens(ts: seq<Token>) {
    forall t :: t in ts && t.Lit? ==> t.c != '{' && t.c != '}'
  }

  /** One token written out, the placeholders standing for the given texts. */
  function Spell(t: Token, service: string, region: string): (s: string) {
    match t
    case Lit(c) => [c]
    case Service => service
    case Region => region
  }

  /** All placeholders replaced at once. */
  function Substitute(ts: seq<Token>, service: string, region: string): (s: string) {
    if ts == [] then [] else Spell(ts[0], service, region) + Substitute(ts[1..], service, region)
  }

  /** The template a token sequence is written as. */
  function Write(ts: seq<Token>): (s: string) {
    Substitute(ts, SERVICE, REGION)
  }

  /** `s` is written from literals without braces and the two placeholders, the service among them. */
  ghost predicate IsTemplate(s: string) {
    exists ts :: IsTokensOf(ts, s) && Service in ts
  }

  ghost predicate IsTokensOf(ts: seq<Token>, s: string) {
    PlainTokens(ts) && Write(ts) == s
  }

  // ----- reading a template -----

  /** The first token of `s` and how much of `s` it takes. */
  function Next(s: string): (r: Option<(Token, nat)>)
    requires s != []
    ensures r.Some? ==> 0 < r.value.1 <= |s| && Spell(r.value.0, SERVICE, REGION) == s[..r.value.1]
    ensures r.Some? ==> PlainTokens([r.value.0])
  {
    if s[0] == '{' then
      match Find(s[1..], "}")
      case None => None
      case Some(end) =>
        BraceToBrace(s, end);
        var name := s[1..][..end];
        if name == "service" then Some((Service, end + 2))
        else if name == "region" then Some((Region, end + 2))
        else None
    else if s[0] == '}' then None
    else Some((Lit(s[0]), 1))
  }

  lemma BraceToBrace(s: string, end: nat)
    requires s != [] && s[0] == '{' && Find(s[1..], "}") == Some(end)
    ensures end + 2 <= |s| && s[..end + 2] == Braced(s[1..][..end])
  {
  }

  function Tokens(s: string): (r: Option<seq<Token>>)
    decreases |s|
  {
    if s == [] then Some([])
    else
      match Next(s)
      case None => None
      case Some((t, n)) =>
        match Tokens(s[n..])
        case None => None
        case Some(ts) => Some([t] + ts)
  }

  lemma NextOfBraced(name: string, rest: string)
    requires BraceFree(name)
    ensures var s := Braced(name) + rest;
            s[0] == '{' && Find(s[1..], "}") == Some(|name|) && s[1..][..|name|] == name
  {
    var s := Braced(name) + rest;
    var u := s[1..];
    forall i: nat | i < |name|
      ensures !OccursAt(u, "}", i)
    {
      assert u[i..][0] == name[i];
    }
    FindIs(u, "}", |name|);
  }

  lemma NextOfWritten(t: Token, rest: string)
    requires PlainTokens([t])
    ensures var a := Spell(t, SERVICE, REGION);
            a != [] && Next(a + rest) == Some((t, |a|))
  {
    var a := Spell(t, SERVICE, REGION);
    match t
    case Lit(c) => assert (a + rest)[0] == c;
    case Service => NextOfBraced("service", rest);
    case Region =>
      NextOfBraced("region", rest);
  }

  /** Writing tokens and reading them back gives the same tokens. */
  lemma {:induction false} TokensOfWritten(ts: seq<Token>)
    requires PlainTokens(ts)
    ensures Tokens(Write(ts)) == Some(ts)
  {
    hide Next, Spell;
    if ts != [] {
      var rest := Write(ts[1..]);
      NextOfWritten(ts[0], rest);
      TokensOfWritten(ts[1..]);
      assert ts == [ts[0]] + ts[1..];
    }
  }

  lemma {:induction false} TokensAreWritten(s: string)
    requires Tokens(s).Some?
    ensures IsTokensOf(Tokens(s).value, s)
    decreases |s|
  {
    hide Next, Spell;
    if s != [] {
      var (t, n) := Next(s).value;
      TokensAreWritten(s[n..]);
      var ts := Tokens(s[n..]).value;
      assert ([t] + ts)[1..] == ts;
    }
  }

  /** A template is exactly a text that reads as tokens with the service among them. */
  lemma TemplateIsReadable(s: string)
    ensures IsTemplate(s) <==> Tokens(s).Some? && Service in Tokens(s).value
  {
    if ts :| IsTokensOf(ts, s) && Service in ts {
      TokensOfWritten(ts);
    }
    if Tokens(s).Some? {
      TokensAreWritten(s);
    }
  }

  /** Tokens already read, then the rest. */
  function Prepend(done: seq<Token>, rest: Option<seq<Token>>): Option<seq<Token>> {
    if rest.None? then None else Some(done + rest.value)
  }

  lemma PrependNext(done: seq<Token>, s: string)
    requires s != []
    ensures Next(s).None? ==> Prepend(done, Tokens(s)).None? && Tokens(s).None?
    ensures Next(s).Some? ==>
              Prepend(done, Tokens(s)) == Prepend(done + [Next(s).value.0], Tokens(s[Next(s).value.1..]))
  {
    if Tokens(s).Some? {
      var t, ts := Next(s).value.0, Tokens(s[Next(s).value.1..]).value;
      assert done + ([t] + ts) == done + [t] + ts;
    }
  }

  /** Everything before `i` is read. */
  ghost predicate ReadsUpTo(s: string, i: nat) {
    i < |s| && exists ts :: IsTokensOf(ts, s[..i])
  }

  /** Why `s` is rejected: what the first position that cannot be read holds, or that the service is
      missing. */
  ghost predicate Rejected(s: string, e: Error) {
    match e
    case Empty => s == []
    case MissingService => s != [] && exists ts :: IsTokensOf(ts, s) && Service !in ts
    case UnmatchedOpen => exists i: nat :: ReadsUpTo(s, i) && s[i] == '{' && '}' !in s[i + 1..]
    case UnmatchedClose => exists i: nat :: ReadsUpTo(s, i) && s[i] == '}'
    case UnknownPlaceholder(name) =>
      && name != "service" && name != "region" && '}' !in name
      && exists i: nat :: ReadsUpTo(s, i) && Braced(name) <= s[i..]
  }

  lemma {:induction false} SubstituteLast(ts: seq<Token>, t: Token, service: string, region: string)
    ensures Substitute(ts + [t], service, region) == Substitute(ts, service, region) + Spell(t, service, region)
  {
    hide Spell;
    if ts == [] {
      assert ts + [t] == [t] + [];
      SubstituteOne(t, [], service, region);
      assert Spell(t, service, region) + [] == Spell(t, service, region);
    } else {
      SubstituteLast(ts[1..], t, service, region);
      assert (ts + [t])[1..] == ts[1..] + [t];
    }
  }

  /** One more token is read. */
  lemma ReadsOneMore(done: seq<Token>, s: string, i: nat, n: nat, t: Token)
    requires i + n <= |s| && IsTokensOf(done, s[..i]) && PlainTokens([t]) && Spell(t, SERVICE, REGION) == s[i..i + n]
    ensures IsTokensOf(done + [t], s[..i + n])
  {
    hide Spell, Substitute;
    SubstituteLast(done, t, SERVICE, REGION);
    assert s[..i + n] == s[..i] + s[i..i + n];
    assert t in [t];
  }

  /** The placeholder at a brace. */
  lemma PlaceholderAt(s: string, i: nat, end: nat)
    requires i < |s| && s[i] == '{' && Find(s[i + 1..], "}") == Some(end)
    ensures i + end + 2 <= |s| && Braced(s[i + 1..][..end]) == s[i..i + (end + 2)]
    ensures '}' !in s[i + 1..][..end]
  {
    assert s[i..][1..] == s[i + 1..];
    BraceToBrace(s[i..], end);
    NotBeforeFirst(s[i + 1..], '}');
  }

  lemma RejectsBrace(s: string, i: nat, done: seq<Token>)
    requires i < |s| && ReadTo(s, i, done)
    ensures s[i] == '}' ==> Rejected(s, UnmatchedClose)
    ensures s[i] == '{' && Find(s[i + 1..], "}").None? ==> Rejected(s, UnmatchedOpen)
  {
    assert ReadsUpTo(s, i);
    if s[i] == '{' && Find(s[i + 1..], "}").None? {
      NotFoundIsAbsent(s[i + 1..], '}');
    }
  }

  lemma RejectsUnknown(s: string, i: nat, done: seq<Token>, name: string)
    requires i < |s| && ReadTo(s, i, done)
    requires name != "service" && name != "region" && '}' !in name && Braced(name) <= s[i..]
    ensures Rejected(s, UnknownPlaceholder(name))
  {
    assert ReadsUpTo(s, i);
  }

  /** What the token at `i` is. */
  lemma NextAt(s: string, i: nat)
    requires i < |s|
    ensures s[i] == '}' ==> Next(s[i..]).None?
    ensures s[i] != '}' && s[i] != '{' ==> Next(s[i..]) == Some((Lit(s[i]), 1))
    ensures s[i] == '{' ==>
              Next(s[i..]) ==
              match Find(s[i + 1..], "}")
              case None => None
              case Some(end) =>
                var name := s[i + 1..][..end];
                if name == "service" then Some((Service, end + 2))
                else if name == "region" then Some((Region, end + 2)) else None
  {
    assert s[i..][1..] == s[i + 1..];
  }

  /** The first `i` characters are the tokens `done`, and the rest decides. */
  ghost predicate ReadTo(s: string, i: nat, done: seq<Token>) {
    i <= |s| && IsTokensOf(done, s[..i]) && Tokens(s) == Prepend(done, Tokens(s[i..]))
  }

  lemma ReadsOn(s: string, i: nat, done: seq<Token>)
    requires ReadTo(s, i, done) && i < |s|
    ensures Next(s[i..]).None? ==> Tokens(s).None?
    ensures Next(s[i..]).Some? ==> var (t, n) := Next(s[i..]).value; ReadTo(s, i + n, done + [t])
  {
    hide Tokens, Prepend, IsTokensOf;
    PrependNext(done, s[i..]);
    if Next(s[i..]).Some? {
      var (t, n) := Next(s[i..]).value;
      assert s[i..][..n] == s[i..i + n] && s[i..][n..] == s[i + n..];
      ReadsOneMore(done, s, i, n, t);
    }
  }

  lemma ReadsFromStart(s: string)
    ensures ReadTo(s, 0, [])
  {
    PrependEmpty(s, []);
    assert s[0..] == s && s[..0] == [];
  }

  lemma ReadsToEnd(s: string, done: seq<Token>)
    requires ReadTo(s, |s|, done)
    ensures Tokens(s) == Some(done) && IsTokensOf(done, s)
  {
    PrependEmpty(s, done);
    assert s[|s|..] == [] && s[..|s|] == s;
  }

  /** Accepts exactly the templates, and says why it rejects a text. */
  method Validate(s: string) returns (r: Result<(), Error>)
    ensures r.Ok? <==> IsTemplate(s)
    ensures r.Err? ==> Rejected(s, r.error)
  {
    hide Tokens, IsTemplate, IsTokensOf, Rejected, Braced, ReadTo, Next;
    TemplateIsReadable(s);
    ReadsFromStart(s);
    if s == [] {
      ReadsToEnd(s, []);
      RejectsEmpty();
      return Err(Empty);
    }
    var i := 0;
    var sawService := false;
    ghost var done: seq<Token> := [];
    while i < |s|
      invariant i <= |s|
      invariant ReadTo(s, i, done)
      invariant sawService <==> Service in done
    {
      ReadsOn(s, i, done);
      NextAt(s, i);
      RejectsBrace(s, i, done);
      if s[i] == '{' {
        var close := Find(s[i + 1..], "}");
        if close.None? {
          return Err(UnmatchedOpen);
        }
        var end := close.value;
        PlaceholderAt(s, i, end);
        var placeholder := s[i + 1..][..end];
        if placeholder == "service" {
          sawService := true;
          done := done + [Service];
        } else if placeholder == "region" {
          done := done + [Region];
        } else {
          RejectsUnknown(s, i, done, placeholder);
          return Err(UnknownPlaceholder(placeholder));
        }
        i := i + end + 2;
      } else if s[i] == '}' {
        return Err(UnmatchedClose);
      } else {
        done := done + [Lit(s[i])];
        i := i + 1;
      }
    }
    ReadsToEnd(s, done);
    if sawService {
      r := Ok(());
    } else {
      RejectsWithoutService(s, done);
      r := Err(MissingService);
    }
  }

  lemma RejectsEmpty()
    ensures Rejected([], Empty)
  {
  }

  lemma RejectsWithoutService(s: string, ts: seq<Token>)
    requires s != [] && IsTokensOf(ts, s) && Service !in ts
    ensures Rejected(s, MissingService)
  {
  }

  lemma NotFoundIsAbsent(s: string, c: char)
    requires Find(s, [c]).None?
    ensures c !in s
  {
    if c in s {
      var i :| 0 <= i < |s| && s[i] == c;
      assert OccursAt(s, [c], i);
    }
  }

  lemma PrependEmpty(s: string, done: seq<Token>)
    ensures Tokens([]) == Some([])
    ensures Prepend([], Tokens(s)) == Tokens(s)
    ensures Prepend(done, Tokens([])) == Some(done)
  {
    if Tokens(s).Some? {
      assert [] + Tokens(s).value == Tokens(s).value;
    }
    assert done + [] == done;
  }

  // ----- filling a template in -----

  function Format(template: string, service: string, region: string): (r: string) {
    Replace(Replace(template, SERVICE, service), REGION, region)
  }

  lemma {:induction false} ReplaceSkips(a: string, s: string, pat: string, sub: string)
    requires pat != [] && pat[0] !in a
    ensures Replace(a + s, pat, sub) == a + Replace(s, pat, sub)
    decreases |a|
  {
    if a == [] {
      assert a + s == s;
    } else {
      ReplaceSkips(a[1..], s, pat, sub);
      assert (a + s)[0] == a[0] && (a + s)[1..] == a[1..] + s;
    }
  }

  lemma ReplaceHit(s: string, pat: string, sub: string)
    requires pat != []
    ensures Replace(pat + s, pat, sub) == sub + Replace(s, pat, sub)
  {
  }

  /** The region placeholder passes the first replacement unharmed. */
  lemma RegionSurvives(s: string, service: string)
    ensures Replace(REGION + s, SERVICE, service) == REGION + Replace(s, SERVICE, service)
  {
    var u, tail := REGION + s, "region" + "}";
    assert u == ['{'] + (tail + s) && u[1..] == tail + s;
    ReplaceSkips(tail, s, SERVICE, service);
  }

  lemma {:induction false} ReplaceService(ts: seq<Token>, service: string)
    requires PlainTokens(ts)
    ensures Replace(Write(ts), SERVICE, service) == Substitute(ts, service, REGION)
  {
    if ts != [] {
      var rest := Write(ts[1..]);
      ReplaceService(ts[1..], service);
      match ts[0]
      case Lit(c) => ReplaceSkips([c], rest, SERVICE, service);
      case Service => ReplaceHit(rest, SERVICE, service);
      case Region => RegionSurvives(rest, service);
    }
  }

  // A service text can form a region placeholder: by holding one, or by ending in the start of one
  // and starting with the end of one, so that two copies of it make one around a literal.

  ghost predicate EndsWith(s: string, t: string) {
    |t| <= |s| && s[|s| - |t|..] == t
  }

  ghost predicate Straddles(service: string, i: nat, j: nat) {
    0 < i <= j < |REGION| && EndsWith(service, REGION[..i]) && REGION[j..] <= service
  }

  ghost predicate FormsRegion(service: string) {
    || (exists k: nat :: OccursAt(service, REGION, k))
    || (exists i: nat, j: nat :: Straddles(service, i, j))
  }

  lemma RegionBraces()
    ensures |REGION| == 8 && REGION[0] == '{' && REGION[7] == '}'
    ensures forall i :: 0 < i < 8 ==> REGION[i] != '{'
    ensures forall i :: 0 <= i < 7 ==> REGION[i] != '}'
  {
  }

  lemma PrefixOfSum(t: string, a: string, b: string)
    requires t <= a + b
    ensures t <= a || forall c :: c in a ==> c in t
  {
    if |t| > |a| {
      assert forall k :: 0 <= k < |a| ==> t[k] == a[k];
    }
  }

  /** The missing end of a placeholder can come only from a service text. */
  lemma {:induction false} ClosedByService(ts: seq<Token>, service: string, x: nat)
    requires PlainTokens(ts) && '{' in service
    requires 0 < x < |REGION| && REGION[x..] <= Substitute(ts, service, REGION)
    ensures exists j :: x <= j < |REGION| && REGION[j..] <= service
    decreases |ts|
  {
    RegionBraces();
    if ts != [] {
      var s, rest := Substitute(ts, service, REGION), Substitute(ts[1..], service, REGION);
      assert s[0] == REGION[x];
      match ts[0]
      case Lit(c) =>
        assert ts[0] in ts;
        assert REGION[x..][1..] == REGION[x + 1..];
        assert s[1..] == rest;
        ClosedByService(ts[1..], service, x + 1);
      case Region =>
      case Service =>
        PrefixOfSum(REGION[x..], service, rest);
    }
  }

  /** A placeholder that starts in a service text is formed by service texts. */
  lemma StartedInService(w: string, service: string, ts: seq<Token>)
    requires PlainTokens(ts) && w != [] && EndsWith(service, w)
    requires REGION <= w + Substitute(ts, service, REGION)
    ensures FormsRegion(service)
  {
    hide Substitute, OccursAt, PlainTokens;
    var rest := Substitute(ts, service, REGION);
    StartsWithBrace(w, service, rest);
    if |w| >= |REGION| {
      HeldBySuffix(w, service, rest);
    } else {
      PrefixInTwo(REGION, w, rest);
      ClosedByService(ts, service, |w|);
      var j :| |w| <= j < |REGION| && REGION[j..] <= service;
      assert Straddles(service, |w|, j);
    }
  }

  lemma StartsWithBrace(w: string, service: string, rest: string)
    requires w != [] && EndsWith(service, w) && REGION <= w + rest
    ensures '{' in service
  {
    assert REGION[0] == '{';
    assert w[0] == service[|service| - |w|];
  }

  lemma HeldBySuffix(w: string, service: string, rest: string)
    requires EndsWith(service, w) && REGION <= w + rest && |w| >= |REGION|
    ensures OccursAt(service, REGION, |service| - |w|)
  {
  }

  lemma PrefixInTwo(t: string, a: string, b: string)
    requires t <= a + b && |a| <= |t|
    ensures t[..|a|] == a && t[|a|..] <= b
  {
  }

  lemma HeadAndRest(s: string, t: string)
    requires s != []
    ensures [s[0]] + (s[1..] + t) == s + t
  {
  }

  lemma EndsWithTail(s: string, t: string)
    requires t != [] && EndsWith(s, t)
    ensures EndsWith(s, t[1..])
  {
  }

  lemma ReplaceOne(a: string, s: string, pat: string, sub: string)
    requires a != [] && pat != [] && !(pat <= a + s)
    ensures Replace(a + s, pat, sub) == [a[0]] + Replace(a[1..] + s, pat, sub)
  {
    assert (a + s)[0] == a[0] && (a + s)[1..] == a[1..] + s;
  }

  lemma {:induction false} ReplaceSkipsService(w: string, service: string, ts: seq<Token>, region: string)
    requires PlainTokens(ts) && !FormsRegion(service) && EndsWith(service, w)
    ensures var rest := Substitute(ts, service, REGION);
            Replace(w + rest, REGION, region) == w + Replace(rest, REGION, region)
    decreases |w|
  {
    hide FormsRegion, Substitute, Replace, PlainTokens, EndsWith;
    var rest := Substitute(ts, service, REGION);
    if w == [] {
      assert w + rest == rest;
      assert w + Replace(rest, REGION, region) == Replace(rest, REGION, region);
    } else {
      if REGION <= w + rest {
        StartedInService(w, service, ts);
      }
      EndsWithTail(service, w);
      ReplaceSkipsService(w[1..], service, ts, region);
      ReplaceOne(w, rest, REGION, region);
      HeadAndRest(w, Replace(rest, REGION, region));
    }
  }

  lemma {:induction false} ReplaceRegion(ts: seq<Token>, service: string, region: string)
    requires PlainTokens(ts) && !FormsRegion(service)
    ensures Replace(Substitute(ts, service, REGION), REGION, region) == Substitute(ts, service, region)
  {
    hide FormsRegion;
    if ts != [] {
      var rest := Substitute(ts[1..], service, REGION);
      ReplaceRegion(ts[1..], service, region);
      match ts[0]
      case Lit(c) => ReplaceSkips([c], rest, REGION, region);
      case Service => ReplaceSkipsService(service, service, ts[1..], region);
      case Region => ReplaceHit(rest, REGION, region);
    }
  }

  /** `format` fills the template in as one simultaneous substitution. */
  ghost predicate Substitutes(template: string, service: string, region: string) {
    Tokens(template).Some? &&
    Format(template, service, region) == Substitute(Tokens(template).value, service, region)
  }

  lemma FormatReplacesRegion(ts: seq<Token>, service: string, region: string)
    requires PlainTokens(ts)
    ensures Substitutes(Write(ts), service, region) <==>
            Replace(Substitute(ts, service, REGION), REGION, region) == Substitute(ts, service, region)
  {
    hide Tokens, Substitute, Replace;
    TokensOfWritten(ts);
    ReplaceService(ts, service);
  }

  /** Replacing a text by a shorter one shortens whatever it occurs in. */
  lemma {:induction false} ReplaceShortens(s: string, pat: string, sub: string)
    requires |sub| < |pat|
    ensures |Replace(s, pat, sub)| <= |s|
    ensures (exists k: nat :: OccursAt(s, pat, k)) ==> |Replace(s, pat, sub)| < |s|
    decreases |s|
  {
    if s == [] {
    } else if pat <= s {
      ReplaceShortens(s[|pat|..], pat, sub);
    } else {
      OccursInTail(s, pat);
      ReplaceShortens(s[1..], pat, sub);
    }
  }

  /** A template in which the service text forms a region placeholder. */
  lemma FormingTemplate(service: string) returns (ts: seq<Token>)
    requires FormsRegion(service)
    ensures PlainTokens(ts) && Service in ts && Region !in ts
    ensures exists k: nat :: OccursAt(Substitute(ts, service, REGION), REGION, k)
  {
    hide Substitute, OccursAt, PlainTokens, Literals, EndsWith;
    if k: nat :| OccursAt(service, REGION, k) {
      ts := [Service];
      OneCopy(service);
      assert OccursAt(Substitute(ts, service, REGION), REGION, k);
    } else {
      var i: nat, j: nat :| Straddles(service, i, j);
      ts := [Service] + (Literals(REGION[i..j]) + [Service]);
      GapTokens(REGION[i..j], i, j);
      TwoCopies(REGION[i..j], service);
      StraddleOccurs(service, i, j);
      assert OccursAt(Substitute(ts, service, REGION), REGION, |service| - i);
    }
  }

  lemma GapTokens(mid: string, i: nat, j: nat)
    requires 0 < i <= j < |REGION| && mid == REGION[i..j]
    ensures var ts := [Service] + (Literals(mid) + [Service]); PlainTokens(ts) && Service in ts && Region !in ts
  {
    RegionBraces();
    var ts := [Service] + (Literals(mid) + [Service]);
    forall k | 0 <= k < |mid|
      ensures mid[k] != '{' && mid[k] != '}'
    {
      assert mid[k] == REGION[i + k];
    }
    assert ts[0] == Service;
  }

  lemma OneCopy(service: string)
    ensures Substitute([Service], service, REGION) == service && PlainTokens([Service])
  {
    assert service + [] == service;
  }

  lemma TwoCopies(mid: string, service: string)
    ensures Substitute([Service] + (Literals(mid) + [Service]), service, REGION) == service + (mid + service)
  {
    SubstituteLiterals(mid, [Service], service, REGION);
    OneCopy(service);
    assert ([Service] + (Literals(mid) + [Service]))[1..] == Literals(mid) + [Service];
  }

  lemma StraddleOccurs(service: string, i: nat, j: nat)
    requires Straddles(service, i, j)
    ensures i <= |service| && OccursAt(service + (REGION[i..j] + service), REGION, |service| - i)
  {
    var s := service + (REGION[i..j] + service);
    assert s[|service| - i..] == REGION[..i] + REGION[i..j] + service;
    assert REGION == REGION[..i] + REGION[i..j] + REGION[j..];
  }

  function Literals(s: string): (ts: seq<Token>)
    ensures |ts| == |s| && forall i :: 0 <= i < |s| ==> ts[i] == Lit(s[i])
  {
    seq(|s|, i requires 0 <= i < |s| => Lit(s[i]))
  }

  lemma LiteralsInTwo(s: string, ts: seq<Token>)
    ensures s == [] ==> Literals(s) + ts == ts
    ensures s != [] ==> Literals(s) + ts == [Lit(s[0])] + (Literals(s[1..]) + ts)
  {
  }

  lemma SubstituteOne(t: Token, ts: seq<Token>, service: string, region: string)
    ensures Substitute([t] + ts, service, region) == Spell(t, service, region) + Substitute(ts, service, region)
  {
    assert ([t] + ts)[1..] == ts;
  }

  lemma {:induction false} SubstituteLiterals(s: string, ts: seq<Token>, service: string, region: string)
    ensures Substitute(Literals(s) + ts, service, region) == s + Substitute(ts, service, region)
    decreases |s|
  {
    hide Substitute, Literals;
    LiteralsInTwo(s, ts);
    if s == [] {
      assert s + Substitute(ts, service, region) == Substitute(ts, service, region);
    } else {
      SubstituteLiterals(s[1..], ts, service, region);
      SubstituteOne(Lit(s[0]), Literals(s[1..]) + ts, service, region);
      HeadAndRest(s, Substitute(ts, service, region));
    }
  }

  lemma {:induction false} NoRegionNoMatter(ts: seq<Token>, service: string, region: string)
    requires Region !in ts
    ensures Substitute(ts, service, region) == Substitute(ts, service, REGION)
  {
    if ts != [] {
      NoRegionNoMatter(ts[1..], service, region);
    }
  }

  /** The two replacements in sequence are one simultaneous substitution for every accepted template
      and every region exactly when the service text forms no region placeholder. */
  lemma FormatIsSubstitutionIff(service: string)
    ensures (forall template, region :: IsTemplate(template) && ValidRegion(region) ==>
                Substitutes(template, service, region)) <==> !FormsRegion(service)
  {
    hide FormsRegion, Substitute, Substitutes, Tokens, Replace;
    if FormsRegion(service) {
      var ts := FormingTemplate(service);
      var region := "a";
      FormatReplacesRegion(ts, service, region);
      ReplaceShortens(Substitute(ts, service, REGION), REGION, region);
      NoRegionNoMatter(ts, service, region);
      assert IsTokensOf(ts, Write(ts)) && IsTemplate(Write(ts)) && ValidRegion(region);
    } else {
      forall template, region | IsTemplate(template)
        ensures Substitutes(template, service, region)
      {
        var ts :| IsTokensOf(ts, template);
        FormatReplacesRegion(ts, service, region);
        ReplaceRegion(ts, service, region);
      }
    }
  }

  lemma FormingTakesBraces(service: string)
    requires FormsRegion(service)
    ensures '{' in service && '}' in service
  {
    RegionBraces();
    if k: nat :| OccursAt(service, REGION, k) {
      assert service[k] == service[k..][0] == '{' && service[k + 7] == service[k..][7] == '}';
    } else {
      var i: nat, j: nat :| Straddles(service, i, j);
      assert service[|service| - i] == REGION[..i][0] == '{';
      assert service[7 - j] == REGION[j..][7 - j] == '}';
    }
  }

  lemma {:induction false} SubstituteIsBraceFree(ts: seq<Token>, service: string, region: string)
    requires PlainTokens(ts) && BraceFree(service) && BraceFree(region)
    ensures BraceFree(Substitute(ts, service, region))
  {
    if ts != [] {
      SubstituteIsBraceFree(ts[1..], service, region);
    }
  }

  /** With a service text without braces no brace is left. */
  lemma FormatSubstitutes(template: string, service: string, region: string)
    requires IsTemplate(template) && BraceFree(service) && ValidRegion(region)
    ensures Substitutes(template, service, region) && BraceFree(Format(template, service, region))
  {
    hide FormsRegion, Substitute, Tokens, Replace;
    if FormsRegion(service) {
      FormingTakesBraces(service);
    }
    FormatIsSubstitutionIff(service);
    TemplateIsReadable(template);
    TokensAreWritten(template);
    SubstituteIsBraceFree(Tokens(template).value, service, region);
  }
}
