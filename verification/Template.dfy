/**
 Validating and rendering a task template (internal/app/template.go): the
 placeholders, the field values, and the normalization of line endings.
 */
module Template {
  import opened Basics
  import opened TemplateScan

  // ---------- line endings ----------

  /** strings.ReplaceAll(s, "\r\n", "\n"). */
  function ReplaceCRLF(s: string): string {
    if |s| < 2 then s
    else if s[0] == '\r' && s[1] == '\n' then "\n" + ReplaceCRLF(s[2..])
    else [s[0]] + ReplaceCRLF(s[1..])
  }

  /** strings.ReplaceAll(s, "\r", "\n"). */
  function ReplaceCR(s: string): (r: string)
    ensures '\r' !in r
  {
    if s == "" then "" else [if s[0] == '\r' then '\n' else s[0]] + ReplaceCR(s[1..])
  }

  function TrimNewlines(s: string): (r: string)
    ensures r <= s && (r == "" || r[|r| - 1] != '\n')
  {
    if s != "" && s[|s| - 1] == '\n' then TrimNewlines(s[..|s| - 1]) else s
  }

  function NormalizeSource(s: string): string {
    TrimNewlines(ReplaceCR(ReplaceCRLF(s))) + "\n"
  }

  lemma {:induction false} WithoutCR(s: string)
    requires '\r' !in s
    ensures ReplaceCRLF(s) == s && ReplaceCR(s) == s
  {
    if s != "" {
      assert s == [s[0]] + s[1..];
      WithoutCR(s[1..]);
    }
  }

  lemma {:induction false} TrimNewlinesAgain(s: string)
    requires s == "" || s[|s| - 1] != '\n'
    ensures TrimNewlines(s + "\n") == s
  {
    assert (s + "\n")[..|s|] == s;
  }

  /** Normalizing is idempotent and leaves one line break at the end and no carriage return. */
  lemma NormalizeIdempotent(s: string)
    ensures var n := NormalizeSource(s);
            && NormalizeSource(n) == n
            && '\r' !in n && n[|n| - 1] == '\n' && (|n| > 1 ==> n[|n| - 2] != '\n')
  {
    var n := NormalizeSource(s);
    WithoutCR(n);
    TrimNewlinesAgain(n[..|n| - 1]);
    assert n == n[..|n| - 1] + "\n";
  }

  /** The text with Windows line endings. */
  function ToCRLF(s: string): string {
    if s == "" then "" else (if s[0] == '\n' then "\r\n" else [s[0]]) + ToCRLF(s[1..])
  }

  lemma {:induction false} ReplaceUndoesCRLF(s: string)
    requires '\r' !in s
    ensures ReplaceCRLF(ToCRLF(s)) == s
  {
    if s != "" {
      var rest := ToCRLF(s[1..]);
      ReplaceUndoesCRLF(s[1..]);
      assert s == [s[0]] + s[1..];
      if s[0] == '\n' {
        assert ToCRLF(s)[2..] == rest;
      } else {
        assert ToCRLF(s)[1..] == rest;
      }
    }
  }

  /** So a template has the same source, and the same digest, whatever its line endings. */
  lemma LineEndingsDoNotMatter(s: string)
    requires '\r' !in s
    ensures NormalizeSource(ToCRLF(s)) == NormalizeSource(s)
  {
    ReplaceUndoesCRLF(s);
    WithoutCR(s);
  }

  // ---------- templates ----------

  datatype Kind = Text | Textarea | Select | Boolean | Unsupported

  datatype Value = Str(text: string) | Bool(flag: bool) | OtherValue

  datatype Field = Field(
    name: string, kind: Kind, required: bool, hasDefault: bool, default: Value, options: seq<string>)

  /** `otherErrors` counts what the parser rejects before it looks at placeholders, duplicate names included. */
  datatype Template = Template(title: string, body: string, fields: seq<Field>, otherErrors: nat)

  datatype Issue =
    | InvalidPlaceholder(token: string)
    | UnknownPlaceholder(name: string)
    | MalformedPlaceholder
    | UnknownField(name: string)
    | RequiredField(name: string)
    | FieldType(name: string)
    | FieldOption(name: string)
    | UnsupportedType(name: string)

  predicate DistinctNames(fields: seq<Field>) {
    forall i, j :: 0 <= i < j < |fields| ==> fields[i].name != fields[j].name
  }

  function Declared(fields: seq<Field>): set<string> { set f | f in fields :: f.name }

  predicate HasBraces(s: string) {
    exists i :: 0 <= i < |s| && (Opens(s, i) || Closes(s, i))
  }

  // ---------- validation ----------

  function TokenIssues(pieces: seq<Piece>, declared: set<string>): seq<Issue> {
    if pieces == [] then []
    else
      var p := pieces[|pieces| - 1];
      TokenIssues(pieces[..|pieces| - 1], declared) +
      if p.Char? then []
      else if NameIn(p.text).None? then [InvalidPlaceholder(p.text)]
      else if NameIn(p.text).value !in declared then [UnknownPlaceholder(NameIn(p.text).value)]
      else []
  }

  function TextIssues(text: string, declared: set<string>): seq<Issue> {
    var pieces := AnyPieces(text, 0);
    TokenIssues(pieces, declared) + if HasBraces(Residue(pieces)) then [MalformedPlaceholder] else []
  }

  method ValidateText(text: string, declared: set<string>) returns (issues: seq<Issue>)
    ensures issues == TextIssues(text, declared)
  {
    issues := [];
    var pieces := AnyPieces(text, 0);
    for i := 0 to |pieces|
      invariant issues == TokenIssues(pieces[..i], declared)
    {
      assert pieces[..i + 1][..i] == pieces[..i];
      match pieces[i] {
        case Char(_) =>
        case Token(token) =>
          var name := NameIn(token);
          if name.None? {
            issues := issues + [InvalidPlaceholder(token)];
          } else if name.value !in declared {
            issues := issues + [UnknownPlaceholder(name.value)];
          }
      }
    }
    assert pieces[..|pieces|] == pieces;
    if HasBraces(Residue(pieces)) {
      issues := issues + [MalformedPlaceholder];
    }
  }

  /** validateTemplatePlaceholders; the two texts are visited in either order. */
  method ValidatePlaceholders(t: Template, titleFirst: bool) returns (issues: seq<Issue>)
    ensures multiset(issues) == multiset(TextIssues(t.title, Declared(t.fields)) + TextIssues(t.body, Declared(t.fields)))
    ensures issues == [] && t.otherErrors == 0 && DistinctNames(t.fields) <==> IsValid(t)
  {
    var declared := Declared(t.fields);
    var title := ValidateText(t.title, declared);
    var body := ValidateText(t.body, declared);
    issues := if titleFirst then title + body else body + title;
  }

  predicate IsValid(t: Template) {
    && t.otherErrors == 0 && DistinctNames(t.fields)
    && TextIssues(t.title, Declared(t.fields)) == [] && TextIssues(t.body, Declared(t.fields)) == []
  }

  lemma {:induction false} NoTokenIssues(pieces: seq<Piece>, declared: set<string>)
    ensures TokenIssues(pieces, declared) == [] <==>
            forall p :: p in pieces && p.Token? ==> NameIn(p.text).Some? && NameIn(p.text).value in declared
  {
    if pieces != [] {
      var before, last := pieces[..|pieces| - 1], pieces[|pieces| - 1];
      assert pieces == before + [last];
      NoTokenIssues(before, declared);
    }
  }

  // ---------- field values ----------

  datatype Resolution = Resolved(text: string, typed: Value) | Rejected(issue: Issue)

  predicate IsMultiline(s: string) { '\r' in s || '\n' in s }

  function NormalizeValue(f: Field, v: Value): Resolution {
    match f.kind
    case Boolean => if v.Bool? then Resolved(if v.flag then "true" else "false", v) else Rejected(FieldType(f.name))
    case Unsupported => Rejected(UnsupportedType(f.name))
    case _ =>
      if !v.Str? || (f.kind.Text? && IsMultiline(v.text)) then Rejected(FieldType(f.name))
      else if f.kind.Select? && v.text != "" && v.text !in f.options then Rejected(FieldOption(f.name))
      else Resolved(ReplaceCRLF(v.text), v)
  }

  /** The value a field takes from the input, its default or its blank, and whether that is acceptable. */
  function ResolveField(f: Field, values: map<string, Value>): Resolution {
    if f.name !in values && !f.hasDefault && f.required then Rejected(RequiredField(f.name))
    else
      var v := if f.name in values then values[f.name] else if f.hasDefault then f.default
               else if f.kind.Boolean? then Bool(false) else Str("");
      var r := NormalizeValue(f, v);
      if r.Resolved? && f.required && Trim(r.text) == "" then Rejected(RequiredField(f.name)) else r
  }

  /** The value is one the kind of field allows. */
  predicate IsTyped(f: Field, v: Value) {
    match f.kind
    case Boolean => v.Bool?
    case Text => v.Str? && '\r' !in v.text && '\n' !in v.text
    case Textarea => v.Str?
    case Select => v.Str? && (v.text == "" || exists k :: 0 <= k < |f.options| && f.options[k] == v.text)
    case Unsupported => false
  }

  /** The value a field takes: the one given, or else its default, or else false or nothing. */
  function Taken(f: Field, values: map<string, Value>): Value {
    if f.name in values then values[f.name]
    else match f
      case Field(_, _, _, true, default, _) => default
      case Field(_, Boolean, _, _, _, _) => Bool(false)
      case _ => Str("")
  }

  /**
   A field accepts the value it takes exactly when its kind allows it and a required field neither lacks a value nor
   has a blank one; it then stands for "true", "false" or the text, with its line ends normalized.
   */
  lemma FieldMeans(f: Field, values: map<string, Value>)
    ensures var r, v := ResolveField(f, values), Taken(f, values);
            var missing := f.required && f.name !in values && !f.hasDefault;
            var blank := f.required && v.Str? && Trim(ReplaceCRLF(v.text)) == "";
            && (r.Resolved? <==> !missing && IsTyped(f, v) && !blank)
            && (r.Resolved? ==>
                  && r.typed == v
                  && match v
                     case Bool(flag) => r.text == if flag then "true" else "false"
                     case Str(text) => r.text == ReplaceCRLF(text)
                     case OtherValue => false)
            && (r.Rejected? ==>
                  r.issue ==
                  if missing then RequiredField(f.name)
                  else if f.kind.Unsupported? then UnsupportedType(f.name)
                  else if IsTyped(f, v) then RequiredField(f.name)
                  else if f.kind.Select? && v.Str? then FieldOption(f.name)
                  else FieldType(f.name))
  {
    var v := Taken(f, values);
    FlagIsNotBlank(v);
    assert v.Str? ==> (v.text in f.options <==> exists k :: 0 <= k < |f.options| && f.options[k] == v.text);
  }

  lemma FlagIsNotBlank(v: Value)
    ensures v.Bool? ==> Trim(if v.flag then "true" else "false") != ""
  {
    TrimFixed("true");
    TrimFixed("false");
  }

  predicate Accepts(t: Template, values: map<string, Value>) {
    values.Keys <= Declared(t.fields) && forall f :: f in t.fields ==> ResolveField(f, values).Resolved?
  }

  /** What each declared name stands for. */
  function Meaning(t: Template, values: map<string, Value>): map<string, string>
    requires DistinctNames(t.fields) && Accepts(t, values)
  {
    map i | 0 <= i < |t.fields| :: t.fields[i].name := ResolveField(t.fields[i], values).text
  }

  // ---------- rendering ----------

  /** ReplaceAllStringFunc: a token gives way to its value, or to nothing if it has none. */
  function Weave(pieces: seq<Piece>, values: map<string, string>): string {
    if pieces == [] then ""
    else
      (match pieces[0]
       case Char(c) => [c]
       case Token(text) => Substitute(text, values)) + Weave(pieces[1..], values)
  }

  function Substitute(token: string, values: map<string, string>): string {
    var name := NameIn(token);
    if name.Some? && name.value in values then values[name.value] else ""
  }

  function Replace(source: string, values: map<string, string>): string {
    Weave(TokenPieces(source, 0), values)
  }

  datatype Result = Rendered(title: string, markdown: string, typed: map<string, Value>) | InvalidTemplate
                  | InvalidFields(issues: set<Issue>) | InvalidTitle

  function TitleOf(t: Template, values: map<string, string>, title: string): string {
    if Trim(title) != "" then Trim(title) else Trim(Replace(t.title, values))
  }

  function Resolutions(t: Template, values: map<string, Value>): (rs: seq<Resolution>)
    ensures |rs| == |t.fields| && forall k :: 0 <= k < |rs| ==> rs[k] == ResolveField(t.fields[k], values)
  {
    seq(|t.fields|, k requires 0 <= k < |t.fields| => ResolveField(t.fields[k], values))
  }

  /** The loop over the fields: what each stands for, and what was rejected. */
  method Collect(fields: seq<Field>, rs: seq<Resolution>, unknown: set<Issue>)
    returns (resolved: map<string, string>, typed: map<string, Value>, issues: set<Issue>)
    requires DistinctNames(fields) && |rs| == |fields|
    ensures forall issue :: issue in issues <==> issue in unknown || Rejected(issue) in rs
    ensures forall k :: 0 <= k < |fields| && rs[k].Resolved? ==>
              && fields[k].name in resolved && resolved[fields[k].name] == rs[k].text
              && fields[k].name in typed && typed[fields[k].name] == rs[k].typed
    ensures resolved.Keys == typed.Keys <= Declared(fields)
  {
    issues, resolved, typed := unknown, map[], map[];
    for i := 0 to |fields|
      invariant forall issue :: issue in issues <==> issue in unknown || Rejected(issue) in rs[..i]
      invariant resolved.Keys == typed.Keys <= Declared(fields)
      invariant forall k :: 0 <= k < i && rs[k].Resolved? ==>
                  && fields[k].name in resolved && resolved[fields[k].name] == rs[k].text
                  && typed[fields[k].name] == rs[k].typed
    {
      assert rs[..i + 1] == rs[..i] + [rs[i]];
      match rs[i] {
        case Rejected(issue) => issues := issues + {issue};
        case Resolved(text, value) =>
          resolved := resolved[fields[i].name := text];
          typed := typed[fields[i].name := value];
      }
    }
    assert rs[..|rs|] == rs;
  }

  /** A field the template does not have, or one of its fields rejected. */
  predicate IsIssue(t: Template, values: map<string, Value>, issue: Issue) {
    || (issue.UnknownField? && issue.name in values && issue.name !in Declared(t.fields))
    || Rejected(issue) in Resolutions(t, values)
  }

  lemma NoIssuesIff(t: Template, values: map<string, Value>, issues: set<Issue>)
    requires forall issue :: issue in issues <==> IsIssue(t, values, issue)
    ensures issues == {} <==> Accepts(t, values)
  {
    var rs := Resolutions(t, values);
    assert forall issue :: Rejected(issue) in rs ==> issue in issues;
    assert forall name :: name in values && name !in Declared(t.fields) ==> UnknownField(name) in issues;
    if issues == {} {
      forall f | f in t.fields ensures ResolveField(f, values).Resolved? {
        var k :| 0 <= k < |t.fields| && t.fields[k] == f;
        assert rs[k] in rs;
      }
    }
    if Accepts(t, values) {
      assert forall k :: 0 <= k < |rs| ==> t.fields[k] in t.fields && rs[k].Resolved?;
      assert forall issue :: Rejected(issue) !in rs;
    }
  }

  method ResolveFields(t: Template, values: map<string, Value>)
    returns (resolved: map<string, string>, typed: map<string, Value>, issues: set<Issue>)
    requires DistinctNames(t.fields)
    ensures forall issue :: issue in issues <==> IsIssue(t, values, issue)
    ensures issues == {} <==> Accepts(t, values)
    ensures Accepts(t, values) ==>
              && resolved == Meaning(t, values)
              && typed.Keys == Declared(t.fields)
              && forall f :: f in t.fields ==> typed[f.name] == ResolveField(f, values).typed
  {
    var declared := Declared(t.fields);
    var unknown := set name | name in values.Keys && name !in declared :: UnknownField(name);
    var rs := Resolutions(t, values);
    resolved, typed, issues := Collect(t.fields, rs, unknown);
    NoIssuesIff(t, values, issues);
    if Accepts(t, values) {
      assert forall k :: 0 <= k < |rs| ==> t.fields[k] in t.fields && rs[k].Resolved?;
      ResolvedIsMeaning(t, values, resolved);
      forall f | f in t.fields ensures typed[f.name] == ResolveField(f, values).typed {
        var k :| 0 <= k < |t.fields| && t.fields[k] == f;
        assert rs[k].Resolved?;
      }
    }
  }

  lemma MeaningAt(t: Template, values: map<string, Value>, k: nat)
    requires DistinctNames(t.fields) && Accepts(t, values) && k < |t.fields|
    ensures t.fields[k].name in Meaning(t, values)
    ensures Meaning(t, values)[t.fields[k].name] == ResolveField(t.fields[k], values).text
  {
  }

  lemma ResolvedIsMeaning(t: Template, values: map<string, Value>, resolved: map<string, string>)
    requires DistinctNames(t.fields) && Accepts(t, values)
    requires resolved.Keys <= Declared(t.fields)
    requires forall k :: 0 <= k < |t.fields| ==>
               t.fields[k].name in resolved && resolved[t.fields[k].name] == ResolveField(t.fields[k], values).text
    ensures resolved == Meaning(t, values) && resolved.Keys == Declared(t.fields)
  {
    var meaning := Meaning(t, values);
    assert meaning.Keys <= Declared(t.fields);
    forall name | name in Declared(t.fields)
      ensures name in resolved && name in meaning && resolved[name] == meaning[name]
    {
      var k :| 0 <= k < |t.fields| && t.fields[k].name == name;
      MeaningAt(t, values, k);
    }
  }

  method RenderTemplate(t: Template, values: map<string, Value>, title: string) returns (r: Result)
    ensures r.InvalidTemplate? <==> !IsValid(t)
    ensures r.InvalidFields? <==> IsValid(t) && !Accepts(t, values)
    ensures r.InvalidFields? ==> forall issue :: issue in r.issues <==> IsIssue(t, values, issue)
    ensures r.InvalidTitle? <==>
              IsValid(t) && Accepts(t, values) && TitleOf(t, Meaning(t, values), title) == ""
    ensures r.Rendered? ==>
              && r.title == TitleOf(t, Meaning(t, values), title) != ""
              && r.title == (if Trim(title) != "" then Trim(title) else Trim(Replace(t.title, Meaning(t, values))))
              && r.markdown == NormalizeSource(Replace(t.body, Meaning(t, values)))
              && r.typed.Keys == Declared(t.fields)
              && forall f :: f in t.fields ==> r.typed[f.name] == ResolveField(f, values).typed
  {
    if !IsValid(t) { return InvalidTemplate; }
    var resolved, typed, issues := ResolveFields(t, values);
    if issues != {} { return InvalidFields(issues); }
    var heading := Trim(title);
    if heading == "" {
      heading := Trim(Replace(t.title, resolved));
    }
    if heading == "" { return InvalidTitle; }
    r := Rendered(heading, NormalizeSource(Replace(t.body, resolved)), typed);
  }

  // ---------- what rendering means ----------

  /**
   In a valid template each text is cut the way validation saw it, without loss; every
   token has a declared name and a defined value, and no brace pair is left outside them.
   */
  lemma RenderingIsExact(t: Template, values: map<string, Value>, text: string)
    requires IsValid(t) && Accepts(t, values) && (text == t.title || text == t.body)
    ensures var pieces := AnyPieces(text, 0);
            var meaning := Meaning(t, values);
            && Print(pieces) == text
            && Replace(text, meaning) == Weave(pieces, meaning)
            && IsBraceFree(Residue(pieces))
            && forall p :: p in pieces && p.Token? ==>
                 NameIn(p.text).Some? && NameIn(p.text).value in Declared(t.fields) && NameIn(p.text).value in meaning
  {
    var pieces := AnyPieces(text, 0);
    NoTokenIssues(pieces, Declared(t.fields));
    ScannersAgreeIff(text, 0);
    PiecesPrint(text, 0);
    assert text[0..] == text;
    NoBracePairs(Residue(pieces));
    forall name | name in Declared(t.fields) ensures name in Meaning(t, values) {
      var i :| 0 <= i < |t.fields| && t.fields[i].name == name;
    }
  }

  /** No two braces of a kind stand side by side. */
  predicate IsBraceFree(s: string) {
    forall i :: 0 <= i < |s| - 1 && s[i] == s[i + 1] ==> s[i] != '{' && s[i] != '}'
  }

  lemma NoBracePairs(s: string)
    ensures !HasBraces(s) <==> IsBraceFree(s)
  {
    if !IsBraceFree(s) {
      var i :| 0 <= i < |s| - 1 && s[i] == s[i + 1] && (s[i] == '{' || s[i] == '}');
      assert Opens(s, i) || Closes(s, i);
    }
  }

  /** The issues of a text: each token that is no placeholder, each placeholder of no field, and braces outside tokens. */
  lemma TextIssuesMean(text: string, declared: set<string>, issue: Issue)
    ensures var pieces := AnyPieces(text, 0);
            issue in TextIssues(text, declared) <==>
              match issue
              case InvalidPlaceholder(token) => Token(token) in pieces && NameIn(token).None?
              case UnknownPlaceholder(name) =>
                name !in declared && exists p :: p in pieces && p.Token? && NameIn(p.text) == Some(name)
              case MalformedPlaceholder => !IsBraceFree(Residue(pieces))
              case _ => false
  {
    TokenIssuesMean(AnyPieces(text, 0), declared, issue);
    NoBracePairs(Residue(AnyPieces(text, 0)));
  }

  lemma {:induction false} TokenIssuesMean(pieces: seq<Piece>, declared: set<string>, issue: Issue)
    ensures issue in TokenIssues(pieces, declared) <==>
              match issue
              case InvalidPlaceholder(token) => Token(token) in pieces && NameIn(token).None?
              case UnknownPlaceholder(name) =>
                name !in declared && exists p :: p in pieces && p.Token? && NameIn(p.text) == Some(name)
              case _ => false
  {
    if pieces != [] {
      var before, last := pieces[..|pieces| - 1], pieces[|pieces| - 1];
      assert pieces == before + [last];
      TokenIssuesMean(before, declared, issue);
    }
  }

  /** A template is valid when the parser found nothing else, and each text has declared tokens and no other brace pair. */
  lemma ValidMeans(t: Template)
    ensures IsValid(t) <==>
              && t.otherErrors == 0 && DistinctNames(t.fields)
              && IsWellFormed(t.title, t.fields) && IsWellFormed(t.body, t.fields)
  {
    WellFormedMeans(t.title, t.fields);
    WellFormedMeans(t.body, t.fields);
  }

  ghost predicate IsWellFormed(text: string, fields: seq<Field>) {
    && (forall p :: p in AnyPieces(text, 0) && p.Token? ==>
          NameIn(p.text).Some? && exists f :: f in fields && f.name == NameIn(p.text).value)
    && IsBraceFree(Residue(AnyPieces(text, 0)))
  }

  lemma WellFormedMeans(text: string, fields: seq<Field>)
    ensures TextIssues(text, Declared(fields)) == [] <==> IsWellFormed(text, fields)
  {
    var pieces := AnyPieces(text, 0);
    NoTokenIssues(pieces, Declared(fields));
    NoBracePairs(Residue(pieces));
    assert forall name :: name in Declared(fields) <==> exists f :: f in fields && f.name == name;
    assert TextIssues(text, Declared(fields)) == [] <==>
      TokenIssues(pieces, Declared(fields)) == [] && !HasBraces(Residue(pieces));
  }

  lemma {:induction false} WeaveConcat(a: seq<Piece>, b: seq<Piece>, values: map<string, string>)
    ensures Weave(a + b, values) == Weave(a, values) + Weave(b, values)
  {
    if a == [] {
      assert a + b == b;
    } else {
      assert (a + b)[1..] == a[1..] + b;
      WeaveConcat(a[1..], b, values);
    }
  }

  /**
   Rendering a token between any two texts is rendering the texts alone, with the value between them as it is: no
   value and no neighbour is scanned together with another.
   */
  lemma ValuesAreNotRescanned(a: string, token: string, b: string, values: map<string, string>)
    requires MatchToken(token, 0).Some? && MatchToken(token, 0).value.end == |token|
    ensures var name := MatchToken(token, 0).value.name;
            Replace(a + (token + b), values) ==
            Replace(a, values) + ((if name in values then values[name] else "") + Replace(b, values))
  {
    var name := MatchToken(token, 0).value.name;
    var v := if name in values then values[name] else "";
    TokenBetween(a, token, b);
    WeaveConcat(TokenPieces(a, 0), [Token(token)] + TokenPieces(b, 0), values);
    assert Substitute(token, values) == v;
    assert ([Token(token)] + TokenPieces(b, 0))[1..] == TokenPieces(b, 0);
  }

  /** Only the values of the text's own tokens matter, whatever token-like text those values contain. */
  lemma {:induction false} OnlyOwnTokensMatter(pieces: seq<Piece>, v: map<string, string>, w: map<string, string>)
    requires forall p :: p in pieces && p.Token? ==> Substitute(p.text, v) == Substitute(p.text, w)
    ensures Weave(pieces, v) == Weave(pieces, w)
  {
    if pieces != [] {
      OnlyOwnTokensMatter(pieces[1..], v, w);
    }
  }
}
