/**
 The two scanners of a task template (internal/app/template.go): validation
 looks for any "{{...}}" without a brace inside, rendering for "{{ name }}".
 */
module TemplateScan {
  import opened Basics

  predicate IsBrace(c: char) { c == '{' || c == '}' }

  /** \s of the regular expressions. */
  predicate IsBlank(c: char) { c == ' ' || c == '\t' || c == '\n' || c == '\r' || c == 12 as char }

  predicate IsLower(c: char) { 'a' <= c <= 'z' }

  predicate IsNameChar(c: char) { IsLower(c) || '0' <= c <= '9' || c == '_' || c == '-' }

  predicate Opens(s: string, i: nat) { i + 2 <= |s| && s[i] == '{' && s[i + 1] == '{' }

  predicate Closes(s: string, i: nat) { i + 2 <= |s| && s[i] == '}' && s[i + 1] == '}' }

  /** The first position from `i` on where `p` fails. */
  function Skip(s: string, p: char -> bool, i: nat): (r: nat)
    requires i <= |s|
    ensures i <= r <= |s|
    ensures forall k :: i <= k < r ==> p(s[k])
    ensures r < |s| ==> !p(s[r])
    decreases |s| - i
  {
    if i < |s| && p(s[i]) then Skip(s, p, i + 1) else i
  }

  /** The end of a match of \{\{[^{}]*\}\} at `i`. */
  function MatchAny(s: string, i: nat): (r: Option<nat>)
    ensures r.Some? ==> i + 4 <= r.value <= |s|
  {
    if !Opens(s, i) then None
    else
      var j := Skip(s, c => !IsBrace(c), i + 2);
      if Closes(s, j) then Some(j + 2) else None
  }

  datatype Named = Named(name: string, end: nat)

  /** The rest of a token whose name starts at `j`. */
  function NameAt(s: string, j: nat): (r: Option<Named>)
    requires j < |s|
    ensures r.Some? ==> j + 2 <= r.value.end <= |s|
  {
    var k := Skip(s, IsNameChar, j + 1);
    var l := Skip(s, IsBlank, k);
    if Closes(s, l) then Some(Named(s[j..k], l + 2)) else None
  }

  /** The name and the end of a match of \{\{\s*([a-z][a-z0-9_-]*)\s*\}\} at `i`. */
  function MatchToken(s: string, i: nat): (r: Option<Named>)
    ensures r.Some? ==> i + 4 <= r.value.end <= |s|
  {
    if !Opens(s, i) then None
    else
      var j := Skip(s, IsBlank, i + 2);
      if j == |s| || !IsLower(s[j]) then None else NameAt(s, j)
  }

  // ---------- one match ----------

  /** A well-formed token is also what validation finds at its place, and ends there too. */
  lemma TokenIsAny(s: string, i: nat)
    requires MatchToken(s, i).Some?
    ensures MatchAny(s, i) == Some(MatchToken(s, i).value.end)
  {
    var j := Skip(s, IsBlank, i + 2);
    var k := Skip(s, IsNameChar, j + 1);
    var l := Skip(s, IsBlank, k);
    forall x | i + 2 <= x < l ensures !IsBrace(s[x]) {
      assert IsBlank(s[x]) || IsLower(s[x]) || IsNameChar(s[x]);
    }
    SkipIs(s, c => !IsBrace(c), i + 2, l);
  }

  lemma {:induction false} SkipIs(s: string, p: char -> bool, i: nat, l: nat)
    requires i <= l <= |s| && (forall x :: i <= x < l ==> p(s[x])) && (l < |s| ==> !p(s[l]))
    ensures Skip(s, p, i) == l
  {
    var r := Skip(s, p, i);
    assert r < |s| ==> !p(s[r]);
  }

  /** Between `i` and `e`: two braces, blanks, a name from `j` to `k`, blanks, and two braces, all written out. */
  predicate IsTokenAt(s: string, i: nat, j: nat, k: nat, e: nat) {
    && i + 2 <= j < k && k + 2 <= e <= |s|
    && s[i] == s[i + 1] == '{' && s[e - 2] == s[e - 1] == '}'
    && (forall x :: i + 2 <= x < e - 2 && !(j <= x < k) ==> s[x] in " \t\n\r" || s[x] == 12 as char)
    && 'a' <= s[j] && s[j] <= 'z'
    && forall x :: j <= x < k ==> ('a' <= s[x] && s[x] <= 'z') || s[x] in "0123456789" || s[x] in "_-"
  }

  lemma NameCharMeans(c: char)
    ensures IsNameChar(c) <==> ('a' <= c && c <= 'z') || c in "0123456789" || c in "_-"
  {
    if '0' <= c <= '9' {
      assert c in "0123456789" by {
        assert c == "0123456789"[c as int - '0' as int];
      }
    }
  }

  lemma BlankMeans(c: char)
    ensures IsBlank(c) <==> c in " \t\n\r" || c == 12 as char
  {
  }

  /** What is matched is a token with its name between blanks. */
  lemma MatchIsToken(s: string, i: nat) returns (j: nat, k: nat)
    requires MatchToken(s, i).Some?
    ensures var m := MatchToken(s, i).value;
            IsTokenAt(s, i, j, k, m.end) && m.name == s[j..k]
  {
    j := Skip(s, IsBlank, i + 2);
    k := Skip(s, IsNameChar, j + 1);
    forall x | j <= x < k ensures ('a' <= s[x] && s[x] <= 'z') || s[x] in "0123456789" || s[x] in "_-" {
      NameCharMeans(s[x]);
    }
  }

  lemma TokenChars(s: string, i: nat, j: nat, k: nat, e: nat)
    requires IsTokenAt(s, i, j, k, e)
    ensures forall x :: i + 2 <= x < e - 2 && !(j <= x < k) ==> IsBlank(s[x])
    ensures forall x :: j <= x < k ==> IsNameChar(s[x])
    ensures IsLower(s[j]) && !IsBlank(s[j]) && !IsNameChar(s[k]) && !IsBlank(s[e - 2])
  {
    forall x | i + 2 <= x < e - 2 && !(j <= x < k) ensures IsBlank(s[x]) {
      BlankMeans(s[x]);
    }
    forall x | j <= x < k ensures IsNameChar(s[x]) {
      NameCharMeans(s[x]);
    }
    assert k < e - 2 ==> IsBlank(s[k]);
  }

  /** And wherever a text has a token with a name between blanks, it is matched. */
  lemma TokenIsMatched(s: string, i: nat, j: nat, k: nat, e: nat)
    requires IsTokenAt(s, i, j, k, e)
    ensures MatchToken(s, i) == Some(Named(s[j..k], e))
  {
    hide Skip;
    hide IsBlank;
    hide IsNameChar;
    hide IsLower;
    TokenChars(s, i, j, k, e);
    SkipIs(s, IsBlank, i + 2, j);
    SkipIs(s, IsNameChar, j + 1, k);
    SkipIs(s, IsBlank, k, e - 2);
  }

  /** The validation pattern matches exactly two braces, text without any, and two braces. */
  lemma AnyMeans(s: string, i: nat, e: nat)
    ensures MatchAny(s, i) == Some(e) <==>
              && i + 4 <= e <= |s| && s[i..i + 2] == "{{" && s[e - 2..e] == "}}"
              && forall k :: i + 2 <= k < e - 2 ==> s[k] != '{' && s[k] != '}'
  {
    if i + 4 <= e <= |s| {
      assert s[i..i + 2] == [s[i], s[i + 1]] && s[e - 2..e] == [s[e - 2], s[e - 1]];
      if (forall k :: i + 2 <= k < e - 2 ==> s[k] != '{' && s[k] != '}') && s[e - 2] == '}' {
        SkipIs(s, c => !IsBrace(c), i + 2, e - 2);
      }
    }
  }

  /** Skipping inside a slice is skipping in the text, as long as it stops before the slice ends. */
  lemma SkipInSlice(s: string, p: char -> bool, a: nat, e: nat, i: nat, stop: nat)
    requires a <= i <= stop < e <= |s| && !p(s[stop])
    ensures Skip(s[a..e], p, i - a) == Skip(s, p, i) - a <= stop - a
  {
    var r := Skip(s, p, i);
    assert r <= stop;
    var t := s[a..e];
    assert forall x :: i - a <= x < r - a ==> t[x] == s[a + x];
    assert t[r - a] == s[r];
    SkipIs(t, p, i - a, r - a);
  }

  lemma AnyIsLocal(s: string, i: nat, e: nat)
    requires MatchAny(s, i) == Some(e)
    ensures MatchAny(s[i..e], 0) == Some(e - i)
    ensures IsBrace(s[e - 2]) && IsBrace(s[e - 1])
  {
    SkipInSlice(s, c => !IsBrace(c), i, e, i + 2, e - 2);
  }

  lemma PartsAreLocal(s: string, i: nat, e: nat, j: nat) returns (k: nat, l: nat)
    requires i <= j < e - 2 && e <= |s| && s[e - 2] == '}'
    ensures j < k <= l <= e - 2
    ensures k == Skip(s, IsNameChar, j + 1) && l == Skip(s, IsBlank, k)
    ensures k - i == Skip(s[i..e], IsNameChar, j - i + 1) && l - i == Skip(s[i..e], IsBlank, k - i)
  {
    k := Skip(s, IsNameChar, j + 1);
    SkipInSlice(s, IsNameChar, i, e, j + 1, e - 2);
    l := Skip(s, IsBlank, k);
    SkipInSlice(s, IsBlank, i, e, k, e - 2);
  }

  lemma NameIsLocal(s: string, i: nat, e: nat, j: nat)
    requires i <= j < e - 2 && e <= |s| && s[e - 2] == s[e - 1] == '}'
    requires forall x :: j <= x < e - 2 ==> !IsBrace(s[x])
    ensures var t := s[i..e];
            if NameAt(s, j).None? then NameAt(t, j - i).None?
            else NameAt(t, j - i) == Some(Named(NameAt(s, j).value.name, e - i))
  {
    var k, l := PartsAreLocal(s, i, e, j);
    SliceOfSlice(s, i, e, j - i, k - i);
    ClosesInSlice(s, i, e, l);
  }

  lemma ClosesInSlice(s: string, i: nat, e: nat, l: nat)
    requires i <= l <= e - 2 && e <= |s| && s[e - 2] == s[e - 1] == '}'
    requires l < e - 2 ==> !IsBrace(s[l])
    ensures Closes(s, l) <==> l == e - 2
    ensures Closes(s[i..e], l - i) <==> l == e - 2
  {
    assert s[i..e][l - i] == s[l] && s[i..e][e - 1 - i] == s[e - 1];
  }

  /** A match at `i` does not look past the first brace after the opening ones. */
  lemma TokenIsLocal(s: string, i: nat, e: nat)
    requires MatchAny(s, i) == Some(e)
    ensures var t := s[i..e];
            if MatchToken(s, i).None? then MatchToken(t, 0).None?
            else MatchToken(t, 0) == Some(Named(MatchToken(s, i).value.name, e - i))
  {
    var j := NameStart(s, i, e);
    if IsLower(s[j]) {
      NameIsLocal(s, i, e, j);
    }
  }

  lemma NameStart(s: string, i: nat, e: nat) returns (j: nat)
    requires MatchAny(s, i) == Some(e)
    ensures i + 2 <= j <= e - 2 && s[e - 2] == s[e - 1] == '}'
    ensures j == Skip(s, IsBlank, i + 2) && j - i == Skip(s[i..e], IsBlank, 2)
    ensures Opens(s, i) && Opens(s[i..e], 0) && s[i..e][j - i] == s[j]
    ensures forall x :: j <= x < e - 2 ==> !IsBrace(s[x])
    ensures IsLower(s[j]) ==> j < e - 2
  {
    AnyIsLocal(s, i, e);
    SkipInSlice(s, IsBlank, i, e, i + 2, e - 2);
    j := Skip(s, IsBlank, i + 2);
  }

  /** FindStringSubmatch of a token's text: the first place where a well-formed token starts. */
  function NameFrom(token: string, i: nat): Option<string>
    requires i <= |token|
    decreases |token| - i
  {
    if MatchToken(token, i).Some? then Some(MatchToken(token, i).value.name)
    else if i == |token| then None else NameFrom(token, i + 1)
  }

  function NameIn(token: string): Option<string> { NameFrom(token, 0) }

  lemma {:induction false} NothingLater(token: string, i: nat)
    requires 1 <= i <= |token| && MatchAny(token, 0) == Some(|token|)
    ensures NameFrom(token, i).None?
    decreases |token| - i
  {
    assert !Opens(token, i);
    if i < |token| {
      NothingLater(token, i + 1);
    }
  }

  /** So the search inside a token's text finds the whole token or nothing. */
  lemma NameInToken(s: string, i: nat, e: nat)
    requires MatchAny(s, i) == Some(e)
    ensures NameIn(s[i..e]) == if MatchToken(s, i).Some? then Some(MatchToken(s, i).value.name) else None
  {
    AnyIsLocal(s, i, e);
    TokenIsLocal(s, i, e);
    WholeOrNothing(s[i..e]);
  }

  lemma WholeOrNothing(token: string)
    requires MatchAny(token, 0) == Some(|token|)
    ensures NameIn(token) == if MatchToken(token, 0).Some? then Some(MatchToken(token, 0).value.name) else None
  {
    NothingLater(token, 1);
  }

  // ---------- the whole text ----------

  datatype Piece = Char(c: char) | Token(text: string)

  /** The text as validation cuts it. */
  function AnyPieces(s: string, i: nat): seq<Piece>
    requires i <= |s|
    decreases |s| - i
  {
    if i == |s| then []
    else
      match MatchAny(s, i)
      case Some(e) => [Token(s[i..e])] + AnyPieces(s, e)
      case None => [Char(s[i])] + AnyPieces(s, i + 1)
  }

  /** The text as rendering cuts it. */
  function TokenPieces(s: string, i: nat): seq<Piece>
    requires i <= |s|
    decreases |s| - i
  {
    if i == |s| then []
    else
      match MatchToken(s, i)
      case Some(m) => [Token(s[i..m.end])] + TokenPieces(s, m.end)
      case None => [Char(s[i])] + TokenPieces(s, i + 1)
  }

  predicate AllNamed(pieces: seq<Piece>) {
    forall p :: p in pieces && p.Token? ==> NameIn(p.text).Some?
  }

  /** The two scanners cut a text alike exactly when every token validation sees is well formed. */
  lemma {:induction false} ScannersAgreeIff(s: string, i: nat)
    requires i <= |s|
    ensures AnyPieces(s, i) == TokenPieces(s, i) <==> AllNamed(AnyPieces(s, i))
    decreases |s| - i
  {
    if i < |s| {
      if MatchToken(s, i).Some? {
        TokenIsAny(s, i);
      }
      match MatchAny(s, i)
      case None =>
        ScannersAgreeIff(s, i + 1);
        PieceAndRest(Char(s[i]), AnyPieces(s, i + 1), TokenPieces(s, i + 1));
      case Some(e) =>
        NameInToken(s, i, e);
        ScannersAgreeIff(s, e);
        if MatchToken(s, i).Some? {
          PieceAndRest(Token(s[i..e]), AnyPieces(s, e), TokenPieces(s, e));
        } else {
          assert AnyPieces(s, i)[0] == Token(s[i..e]) && TokenPieces(s, i)[0] == Char(s[i]);
          assert Token(s[i..e]) in AnyPieces(s, i);
        }
    }
  }

  lemma PieceAndRest(p: Piece, a: seq<Piece>, b: seq<Piece>)
    ensures [p] + a == [p] + b <==> a == b
    ensures AllNamed([p] + a) <==> (p.Token? ==> NameIn(p.text).Some?) && AllNamed(a)
  {
    if [p] + a == [p] + b {
      assert a == ([p] + a)[1..] == ([p] + b)[1..] == b;
    }
    if AllNamed([p] + a) {
      assert p in [p] + a && forall x :: x in a ==> x in [p] + a;
    }
  }

  function Text(p: Piece): string { if p.Char? then [p.c] else p.text }

  function Print(pieces: seq<Piece>): string {
    if pieces == [] then "" else Text(pieces[0]) + Print(pieces[1..])
  }

  /** Cutting loses nothing: the pieces put together are the text. */
  lemma {:induction false} PiecesPrint(s: string, i: nat)
    requires i <= |s|
    ensures Print(TokenPieces(s, i)) == s[i..]
    decreases |s| - i
  {
    if i < |s| {
      var m := MatchToken(s, i);
      var next := if m.Some? then m.value.end else i + 1;
      PiecesPrint(s, next);
      var first := if m.Some? then Token(s[i..next]) else Char(s[i]);
      assert TokenPieces(s, i) == [first] + TokenPieces(s, next);
      PrintFirst(first, TokenPieces(s, next));
      assert Text(first) == s[i..next];
      CutAt(s, i, next);
    }
  }

  lemma PrintFirst(p: Piece, rest: seq<Piece>)
    ensures Print([p] + rest) == Text(p) + Print(rest)
  {
    assert ([p] + rest)[1..] == rest;
  }

  lemma CutAt(s: string, i: nat, next: nat)
    requires i <= next <= |s|
    ensures s[i..next] + s[next..] == s[i..]
  {
  }

  // ---------- a token between two texts ----------

  lemma SkipAfter(a: string, t: string, p: char -> bool, i: nat)
    requires i <= |t|
    ensures Skip(a + t, p, |a| + i) == |a| + Skip(t, p, i)
  {
    var s, r := a + t, Skip(t, p, i);
    assert forall x :: 0 <= x < |t| ==> s[|a| + x] == t[x];
    SkipIs(s, p, |a| + i, |a| + r);
  }

  /** Skipping in a text stops at the end of `a` at the latest, when what follows does not belong. */
  lemma SkipBefore(a: string, t: string, p: char -> bool, i: nat)
    requires i <= |a| && t != "" && !p(t[0])
    ensures Skip(a + t, p, i) == Skip(a, p, i)
  {
    var s, r := a + t, Skip(a, p, i);
    assert forall x :: 0 <= x < |a| ==> s[x] == a[x];
    assert s[|a|] == t[0];
    SkipIs(s, p, i, r);
  }

  lemma ClosesAfter(a: string, t: string, i: nat)
    ensures Closes(a + t, |a| + i) <==> Closes(t, i)
    ensures Opens(a + t, |a| + i) <==> Opens(t, i)
  {
  }

  lemma NameAfter(a: string, t: string, j: nat)
    requires j < |t|
    ensures var m := NameAt(t, j);
            NameAt(a + t, |a| + j) == if m.None? then None else Some(Named(m.value.name, |a| + m.value.end))
  {
    hide Skip;
    var k := Skip(t, IsNameChar, j + 1);
    SkipAfter(a, t, IsNameChar, j + 1);
    SkipAfter(a, t, IsBlank, k);
    SliceAfter(a, t, j, k);
    ClosesAfter(a, t, Skip(t, IsBlank, k));
  }

  /** What stands before a position does not matter to a match there. */
  lemma MatchAfter(a: string, t: string, i: nat)
    requires i <= |t|
    ensures var m := MatchToken(t, i);
            MatchToken(a + t, |a| + i) == if m.None? then None else Some(Named(m.value.name, |a| + m.value.end))
  {
    hide Skip, NameAt;
    ClosesAfter(a, t, i);
    if Opens(t, i) {
      var j := Skip(t, IsBlank, i + 2);
      SkipAfter(a, t, IsBlank, i + 2);
      if j < |t| && IsLower(t[j]) {
        NameAfter(a, t, j);
      }
    }
  }

  lemma NameBefore(a: string, t: string, j: nat)
    requires j < |a| && Opens(t, 0)
    ensures NameAt(a + t, j) == NameAt(a, j)
  {
    var s := a + t;
    var k := Skip(a, IsNameChar, j + 1);
    var l := Skip(a, IsBlank, k);
    SkipBefore(a, t, IsNameChar, j + 1);
    SkipBefore(a, t, IsBlank, k);
    SliceInside(a, t, j, k);
    assert forall x :: 0 <= x < |a| ==> s[x] == a[x];
    assert s[|a|] == t[0];
  }

  /** No match begins in a text and reaches into a token that follows. */
  lemma MatchBefore(a: string, t: string, i: nat)
    requires i < |a| && Opens(t, 0)
    ensures MatchToken(a + t, i) == MatchToken(a, i)
  {
    var s := a + t;
    assert forall x :: 0 <= x < |a| ==> s[x] == a[x];
    assert s[|a|] == t[0] && s[|a| + 1] == t[1];
    if Opens(a, i) {
      var j := Skip(a, IsBlank, i + 2);
      SkipBefore(a, t, IsBlank, i + 2);
      if j < |a| && IsLower(a[j]) {
        NameBefore(a, t, j);
      }
    }
  }

  /** A stop inside a text does not depend on what follows. */
  lemma SkipInside(a: string, b: string, p: char -> bool, i: nat)
    requires i <= |a| && Skip(a, p, i) < |a|
    ensures Skip(a + b, p, i) == Skip(a, p, i)
  {
    var s, r := a + b, Skip(a, p, i);
    assert forall x :: 0 <= x < |a| ==> s[x] == a[x];
    SkipIs(s, p, i, r);
  }

  lemma SliceInside(a: string, b: string, i: nat, j: nat)
    requires i <= j <= |a|
    ensures (a + b)[i..j] == a[i..j]
  {
  }

  lemma ClosesInside(a: string, b: string, i: nat)
    requires Closes(a, i)
    ensures Closes(a + b, i)
  {
  }

  lemma NameInside(a: string, b: string, j: nat)
    requires j < |a| && NameAt(a, j).Some?
    ensures NameAt(a + b, j) == NameAt(a, j)
  {
    hide Skip;
    var k := Skip(a, IsNameChar, j + 1);
    SkipInside(a, b, IsNameChar, j + 1);
    SkipInside(a, b, IsBlank, k);
    SliceInside(a, b, j, k);
    ClosesInside(a, b, Skip(a, IsBlank, k));
  }

  /** Nor does one that begins at a whole token reach beyond it. */
  lemma MatchWhole(token: string, b: string)
    requires MatchToken(token, 0).Some? && MatchToken(token, 0).value.end == |token|
    ensures MatchToken(token + b, 0) == MatchToken(token, 0)
  {
    var j := Skip(token, IsBlank, 2);
    SkipInside(token, b, IsBlank, 2);
    NameInside(token, b, j);
    hide Skip, NameAt;
    assert (token + b)[0] == token[0] && (token + b)[1] == token[1] && (token + b)[j] == token[j];
  }

  /** The piece rendering cuts at a position, and where the next one begins. */
  function NextPiece(s: string, i: nat): (r: (Piece, nat))
    requires i < |s|
    ensures i < r.1 <= |s|
  {
    var m := MatchToken(s, i);
    if m.Some? then (Token(s[i..m.value.end]), m.value.end) else (Char(s[i]), i + 1)
  }

  lemma PiecesStep(s: string, i: nat)
    requires i < |s|
    ensures TokenPieces(s, i) == [NextPiece(s, i).0] + TokenPieces(s, NextPiece(s, i).1)
  {
    hide MatchToken;
  }

  lemma SliceAfter(a: string, t: string, i: nat, j: nat)
    requires i <= j <= |t|
    ensures (a + t)[|a| + i..|a| + j] == t[i..j]
  {
  }

  lemma NextAfter(a: string, t: string, i: nat)
    requires i < |t|
    ensures NextPiece(a + t, |a| + i) == (NextPiece(t, i).0, |a| + NextPiece(t, i).1)
  {
    hide MatchToken;
    MatchAfter(a, t, i);
    SliceAfter(a, t, i, NextPiece(t, i).1);
  }

  lemma NextBefore(a: string, t: string, i: nat)
    requires i < |a| && Opens(t, 0)
    ensures NextPiece(a + t, i) == NextPiece(a, i)
  {
    hide MatchToken;
    MatchBefore(a, t, i);
    SliceInside(a, t, i, NextPiece(a, i).1);
  }

  lemma PiecesEnd(s: string)
    ensures TokenPieces(s, |s|) == []
  {
  }

  lemma {:induction false} PiecesAfter(a: string, t: string, i: nat)
    requires i <= |t|
    ensures TokenPieces(a + t, |a| + i) == TokenPieces(t, i)
    decreases |t| - i
  {
    hide NextPiece, TokenPieces;
    var s := a + t;
    if i == |t| {
      PiecesEnd(t);
      PiecesEnd(s);
    } else {
      NextAfter(a, t, i);
      PiecesStep(t, i);
      PiecesStep(s, |a| + i);
      PiecesAfter(a, t, NextPiece(t, i).1);
    }
  }

  lemma Associates(first: Piece, rest: seq<Piece>, back: seq<Piece>)
    ensures [first] + (rest + back) == ([first] + rest) + back
  {
  }

  lemma {:induction false} PiecesBefore(a: string, t: string, i: nat)
    requires i <= |a| && Opens(t, 0)
    ensures TokenPieces(a + t, i) == TokenPieces(a, i) + TokenPieces(t, 0)
    decreases |a| - i
  {
    hide NextPiece, TokenPieces;
    if i == |a| {
      PiecesEnd(a);
      PiecesAfter(a, t, 0);
    } else {
      NextBefore(a, t, i);
      PiecesStep(a, i);
      PiecesStep(a + t, i);
      PiecesBefore(a, t, NextPiece(a, i).1);
      Associates(NextPiece(a, i).0, TokenPieces(a, NextPiece(a, i).1), TokenPieces(t, 0));
    }
  }

  /** A token between two texts is cut out as it is, and the texts are cut as if they stood alone. */
  lemma TokenBetween(a: string, token: string, b: string)
    requires MatchToken(token, 0).Some? && MatchToken(token, 0).value.end == |token|
    ensures TokenPieces(a + (token + b), 0) == TokenPieces(a, 0) + ([Token(token)] + TokenPieces(b, 0))
  {
    hide MatchToken, NextPiece, TokenPieces;
    var t := token + b;
    TokenFirst(token, b);
    PiecesStep(t, 0);
    PiecesAfter(token, b, 0);
    PiecesBefore(a, t, 0);
  }

  lemma TokenFirst(token: string, b: string)
    requires MatchToken(token, 0).Some? && MatchToken(token, 0).value.end == |token|
    ensures Opens(token + b, 0) && NextPiece(token + b, 0) == (Token(token), |token|)
  {
    MatchWhole(token, b);
    SliceInside(token, b, 0, |token|);
  }

  lemma {:induction false} TokenPiecesAreNamed(s: string, i: nat)
    requires i <= |s|
    ensures AllNamed(TokenPieces(s, i))
    decreases |s| - i
  {
    if i < |s| {
      var m := MatchToken(s, i);
      if m.Some? {
        TokenIsAny(s, i);
        NameInToken(s, i, m.value.end);
        TokenPiecesAreNamed(s, m.value.end);
      } else {
        TokenPiecesAreNamed(s, i + 1);
      }
    }
  }

  /** What is left of a text without its tokens. */
  function Residue(pieces: seq<Piece>): string {
    if pieces == [] then "" else Outside(pieces[0]) + Residue(pieces[1..])
  }

  function Outside(piece: Piece): string {
    if piece.Char? then [piece.c] else ""
  }

  lemma ResidueOfOne(piece: Piece)
    ensures Residue([piece]) == match piece case Char(c) => [c] case Token(_) => ""
  {
    assert [piece][1..] == [];
  }

  /** It is the characters outside the tokens, in order. */
  lemma {:induction false} ResidueConcat(a: seq<Piece>, b: seq<Piece>)
    ensures Residue(a + b) == Residue(a) + Residue(b)
  {
    hide Outside;
    if a == [] {
      assert a + b == b;
    } else {
      ResidueConcat(a[1..], b);
      assert (a + b)[1..] == a[1..] + b;
    }
  }
}
