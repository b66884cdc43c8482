/** What a route path is: the simultaneous substitution of its placeholders, exactly when each of them is served
    the value of its name, with the segments of the pattern in their places.
 */
module Routes {
  import opened Text
  import opened Transport

  // ---------- simultaneous substitution ----------

  /** The value the parameters give a name: that of its first pair. */
  function Lookup(params: seq<Bytes>, name: string): Option<Bytes>
    decreases |params|
  {
    if |params| < 2 then None
    else if params[0] == name then Some(params[1])
    else Lookup(params[2..], name)
  }

  /** Every placeholder whose name has a value replaced at once. */
  function Substituted(t: seq<Piece>, params: seq<Bytes>): seq<Piece> {
    seq(|t|, i requires 0 <= i < |t| => SubstitutedPiece(t[i], params))
  }

  function SubstitutedPiece(p: Piece, params: seq<Bytes>): Piece {
    match p
    case Lit(_) => p
    case Hole(name) =>
      match Lookup(params, name)
      case None => p
      case Some(value) => Lit(PathEscape(value))
  }

  // ---------- which value a placeholder gets ----------

  /** How often a placeholder is there. */
  function HoleCount(t: seq<Piece>, name: string): nat {
    if |t| == 0 then 0 else (if t[0] == Hole(name) then 1 else 0) + HoleCount(t[1..], name)
  }

  /** The value of the pair of a name after k others of that name. */
  function Nth(params: seq<Bytes>, name: string, k: nat): Option<Bytes>
    decreases |params|
  {
    if |params| < 2 then None
    else if params[0] != name then Nth(params[2..], name, k)
    else if k == 0 then Some(params[1])
    else Nth(params[2..], name, k - 1)
  }

  /** The value the placeholder at i is filled with. */
  function ValueAt(t: seq<Piece>, params: seq<Bytes>, i: nat): Option<Bytes>
    requires i < |t| && t[i].Hole?
  {
    Nth(params, t[i].name, HoleCount(t[..i], t[i].name))
  }

  /** Each placeholder gets the value of its name, that of the first pair, when the name has one. */
  ghost predicate EachServed(t: seq<Piece>, params: seq<Bytes>) {
    forall i | 0 <= i < |t| && t[i].Hole? :: ValueAt(t, params, i) == Lookup(params, t[i].name)
  }

  /** No placeholder the parameters give a value to is there twice. */
  ghost predicate ValuedOnce(t: seq<Piece>, params: seq<Bytes>) {
    forall i, j | 0 <= i < j < |t| && t[i].Hole? && t[i] == t[j] :: Lookup(params, t[i].name).None?
  }

  ghost predicate NamesDistinct(params: seq<Bytes>) {
    forall i, j | 0 <= i < j < |params| && i % 2 == 0 && j % 2 == 0 :: params[i] != params[j]
  }

  lemma {:induction false} NthFirst(params: seq<Bytes>, name: string)
    ensures Nth(params, name, 0) == Lookup(params, name)
    decreases |params|
  {
    if |params| >= 2 {
      NthFirst(params[2..], name);
    }
  }

  lemma {:induction false} NthHasFirst(params: seq<Bytes>, name: string, k: nat)
    requires Nth(params, name, k).Some?
    ensures Lookup(params, name).Some?
    decreases |params|
  {
    if params[0] != name {
      NthHasFirst(params[2..], name, k);
    }
  }

  lemma {:induction false} NthDistinct(params: seq<Bytes>, name: string, k: nat)
    requires NamesDistinct(params) && k > 0
    ensures Nth(params, name, k).None?
    decreases |params|
  {
    if |params| >= 2 {
      assert forall i | 0 <= i < |params| - 2 :: params[2..][i] == params[i + 2];
      NthDistinct(params[2..], name, k);
      if params[0] == name {
        NotThere(params[2..], name, k - 1);
      }
    }
  }

  lemma {:induction false} NotThere(params: seq<Bytes>, name: string, k: nat)
    requires forall i | 0 <= i < |params| && i % 2 == 0 :: params[i] != name
    ensures Nth(params, name, k).None?
    decreases |params|
  {
    if |params| >= 2 {
      assert forall i | 0 <= i < |params| - 2 :: params[2..][i] == params[i + 2];
      NotThere(params[2..], name, k);
    }
  }

  /** Filling takes the one placeholder of the name that has none before it. */
  lemma {:induction false} FillFirstAt(t: seq<Piece>, name: string, text: string, i: nat)
    requires i < |t|
    ensures |FillFirst(t, name, text)| == |t|
    ensures FillFirst(t, name, text)[i]
         == if t[i] == Hole(name) && HoleCount(t[..i], name) == 0 then Lit(text) else t[i]
  {
    if t[0] == Hole(name) {
      if i > 0 {
        assert t[..i][0] == t[0];
      }
    } else if i > 0 {
      FillFirstAt(t[1..], name, text, i - 1);
      assert t[..i][1..] == t[1..][..i - 1];
    } else if |t| > 1 {
      FillFirstAt(t[1..], name, text, 0);
    } else {
      assert FillFirst(t[1..], name, text) == [];
    }
  }

  lemma {:induction false} CountFilled(t: seq<Piece>, name: string, text: string, m: string, i: nat)
    requires i <= |t| == |FillFirst(t, name, text)|
    ensures var n := HoleCount(t[..i], m);
            HoleCount(FillFirst(t, name, text)[..i], m) == if m == name && n > 0 then n - 1 else n
  {
    if i > 0 {
      var u, rest := FillFirst(t, name, text), t[1..];
      assert t[..i][1..] == rest[..i - 1] && t[..i][0] == t[0];
      assert u[..i][0] == u[0];
      if t[0] == Hole(name) {
        assert u[..i][1..] == rest[..i - 1];
      } else {
        assert u[..i][1..] == FillFirst(rest, name, text)[..i - 1];
        CountFilled(rest, name, text, m, i - 1);
      }
    }
  }

  /** What a placeholder gets, by what filling the first of a name makes of it. */
  lemma ValueOn(t: seq<Piece>, params: seq<Bytes>, i: nat)
    requires |params| >= 2 && i < |t| && t[i].Hole?
    ensures var text := PathEscape(params[1]);
            var u := FillFirst(t, params[0], text);
            && |u| == |t|
            && (u[i] == t[i] ==> ValueAt(u, params[2..], i) == ValueAt(t, params, i))
            && (u[i] != t[i] ==> u[i] == Lit(text) && ValueAt(t, params, i) == Some(params[1]))
  {
    FillFirstAt(t, params[0], PathEscape(params[1]), i);
    CountFilled(t, params[0], PathEscape(params[1]), t[i].name, i);
  }

  /** What became of the piece at i: a placeholder is filled by the pair of its name whose turn it is. */
  lemma {:induction false} FilledAt(t: seq<Piece>, params: seq<Bytes>, i: nat)
    requires i < |t|
    ensures |Filled(t, params)| == |t|
    ensures Filled(t, params)[i]
         == if t[i].Lit? then t[i]
            else match ValueAt(t, params, i) case None => t[i] case Some(value) => Lit(PathEscape(value))
    decreases |params|
  {
    if |params| >= 2 {
      var text := PathEscape(params[1]);
      FillFirstAt(t, params[0], text, i);
      FilledAt(FillFirst(t, params[0], text), params[2..], i);
      if t[i].Hole? {
        ValueOn(t, params, i);
      }
    }
  }

  lemma SameEscape(v: Bytes, w: Bytes)
    ensures PathEscape(v) == PathEscape(w) ==> v == w
  {
    UnescapeEscape(v);
    UnescapeEscape(w);
  }

  /** Filling is the simultaneous substitution exactly when each placeholder is served. */
  lemma FilledIff(t: seq<Piece>, params: seq<Bytes>)
    ensures Filled(t, params) == Substituted(t, params) <==> EachServed(t, params)
  {
    if |t| == 0 {
      FilledNone(params);
    } else {
      FilledAt(t, params, 0);
    }
    forall i | 0 <= i < |t|
      ensures Filled(t, params)[i] == Substituted(t, params)[i]
          <==> (t[i].Hole? ==> ValueAt(t, params, i) == Lookup(params, t[i].name))
    {
      FilledAt(t, params, i);
      if t[i].Hole? && ValueAt(t, params, i).Some? && Lookup(params, t[i].name).Some? {
        SameEscape(ValueAt(t, params, i).value, Lookup(params, t[i].name).value);
      }
    }
  }

  lemma {:induction false} FilledNone(params: seq<Bytes>)
    ensures Filled([], params) == []
    decreases |params|
  {
    if |params| >= 2 {
      FilledNone(params[2..]);
    }
  }

  lemma {:induction false} HoleBefore(t: seq<Piece>, name: string)
    ensures HoleCount(t, name) == 0 <==> Hole(name) !in t
  {
    if |t| > 0 {
      HoleBefore(t[1..], name);
      assert t == [t[0]] + t[1..];
    }
  }

  /** Placeholders that have a value and are there once are served; with distinct names only they are. */
  lemma OnceServed(t: seq<Piece>, params: seq<Bytes>)
    ensures ValuedOnce(t, params) ==> EachServed(t, params)
    ensures NamesDistinct(params) ==> (EachServed(t, params) <==> ValuedOnce(t, params))
  {
    forall i | 0 <= i < |t| && t[i].Hole?
      ensures t[i] !in t[..i] || Lookup(params, t[i].name).None? ==> ValueAt(t, params, i) == Lookup(params, t[i].name)
      ensures t[i] in t[..i] && NamesDistinct(params) ==> ValueAt(t, params, i).None?
    {
      HoleBefore(t[..i], t[i].name);
      NthFirst(params, t[i].name);
      if ValueAt(t, params, i).Some? {
        NthHasFirst(params, t[i].name, HoleCount(t[..i], t[i].name));
      }
      if t[i] in t[..i] && NamesDistinct(params) {
        NthDistinct(params, t[i].name, HoleCount(t[..i], t[i].name));
      }
    }
  }

  // ---------- what the text tells ----------

  lemma RenderFront(p: Piece, t: seq<Piece>)
    ensures Render([p] + t) == RenderPiece(p) + Render(t)
  {
    assert ([p] + t)[1..] == t;
  }

  lemma {:induction false} RenderAppend(t: seq<Piece>, u: seq<Piece>)
    ensures Render(t + u) == Render(t) + Render(u)
  {
    if |t| == 0 {
      assert t + u == u;
    } else {
      var rest := t[1..];
      assert t + u == [t[0]] + (rest + u) && t == [t[0]] + rest;
      RenderFront(t[0], rest + u);
      RenderFront(t[0], rest);
      RenderAppend(rest, u);
      Associative(RenderPiece(t[0]), Render(rest), Render(u));
    }
  }

  /** How often a character is in a string. */
  function Occurrences(s: string, c: char): nat {
    if |s| == 0 then 0 else (if s[0] == c then 1 else 0) + Occurrences(s[1..], c)
  }

  lemma {:induction false} OccurrencesAppend(a: string, b: string, c: char)
    ensures Occurrences(a + b, c) == Occurrences(a, c) + Occurrences(b, c)
  {
    if |a| == 0 {
      assert a + b == b;
    } else {
      OccurrencesAppend(a[1..], b, c);
      assert (a + b)[1..] == a[1..] + b;
    }
  }

  lemma {:induction false} NoOccurrence(s: string, c: char)
    requires c !in s
    ensures Occurrences(s, c) == 0
  {
    if |s| > 0 {
      NoOccurrence(s[1..], c);
    }
  }

  function Holes(t: seq<Piece>): nat {
    if |t| == 0 then 0 else (if t[0].Hole? then 1 else 0) + Holes(t[1..])
  }

  /** The opening braces of a pattern's text are its placeholders. */
  lemma {:induction false} HolesAreBraces(t: seq<Piece>)
    requires WellFormed(t)
    ensures Occurrences(Render(t), '{') == Holes(t)
  {
    if |t| > 0 {
      assert WellFormed(t[1..]);
      HolesAreBraces(t[1..]);
      OccurrencesAppend(RenderPiece(t[0]), Render(t[1..]), '{');
      match t[0]
      case Lit(text) => NoOccurrence(text, '{');
      case Hole(name) =>
        assert Brace(name)[1..] == name + "}";
        NoOccurrence(name + "}", '{');
    }
  }

  lemma {:induction false} FewerHoles(t: seq<Piece>, u: seq<Piece>, j: nat)
    requires |t| == |u| && forall i | 0 <= i < |t| :: t[i].Hole? ==> u[i].Hole?
    ensures Holes(t) <= Holes(u)
    ensures j < |t| && t[j].Lit? && u[j].Hole? ==> Holes(t) < Holes(u)
  {
    if |t| > 0 {
      FewerHoles(t[1..], u[1..], if j == 0 then |t| else j - 1);
    }
  }

  lemma SubstitutedWellFormed(t: seq<Piece>, params: seq<Bytes>)
    requires WellFormed(t)
    ensures WellFormed(Substituted(t, params))
  {
    forall i | 0 <= i < |t|
      ensures WellFormed([Substituted(t, params)[i]])
    {
      if t[i].Hole? && Lookup(params, t[i].name).Some? {
        EscapeBraceless(Lookup(params, t[i].name).value);
      }
    }
    assert forall i | 0 <= i < |t| :: [Substituted(t, params)[i]][0] == Substituted(t, params)[i];
  }

  /** A placeholder that has a value but is not reached leaves a brace the substitution does not have. */
  lemma UnreachedDiffers(t: seq<Piece>, params: seq<Bytes>, j: nat)
    requires WellFormed(t) && NamesClosed(params)
    requires j < |t| && t[j].Hole? && Lookup(params, t[j].name).Some? && ValueAt(t, params, j).None?
    ensures RoutePath(Render(t), params) != Render(Substituted(t, params))
  {
    var s, u := Substituted(t, params), Filled(t, params);
    FilledAt(t, params, j);
    forall i | 0 <= i < |t| && s[i].Hole?
      ensures u[i].Hole?
    {
      FilledAt(t, params, i);
      if ValueAt(t, params, i).Some? {
        NthHasFirst(params, t[i].name, HoleCount(t[..i], t[i].name));
      }
    }
    FewerHoles(s, u, j);
    RouteFills(t, params);
    SubstitutedWellFormed(t, params);
    HolesAreBraces(s);
    HolesAreBraces(u);
  }

  /** Between any two placeholders there is a slash in the pattern's own text. */
  ghost predicate Parted(t: seq<Piece>) {
    forall i, j | 0 <= i < j < |t| && t[i].Hole? && t[j].Hole? :: SlashBetween(t, i, j)
  }

  ghost predicate SlashBetween(t: seq<Piece>, i: nat, j: nat)
    requires i < j < |t|
  {
    exists k :: i < k < j && t[k].Lit? && '/' in t[k].text
  }

  /** Two templates that differ only in literal texts without a slash, any two of them parted by a slash. */
  ghost predicate Variants(s: seq<Piece>, u: seq<Piece>) {
    && |s| == |u|
    && (forall i | 0 <= i < |s| && s[i] != u[i] :: s[i].Lit? && u[i].Lit? && '/' !in s[i].text && '/' !in u[i].text)
    && (forall i, j | 0 <= i < j < |s| && s[i] != u[i] && s[j] != u[j] :: SlashBetween(s, i, j))
  }

  lemma VariantsOn(s: seq<Piece>, u: seq<Piece>)
    requires Variants(s, u) && |s| > 0
    ensures Variants(s[1..], u[1..])
  {
    forall i, j | 0 <= i < j < |s| - 1 && s[1..][i] != u[1..][i] && s[1..][j] != u[1..][j]
      ensures SlashBetween(s[1..], i, j)
    {
      assert SlashBetween(s, i + 1, j + 1);
      var k :| i + 1 < k < j + 1 && s[k].Lit? && '/' in s[k].text;
      assert s[1..][k - 1] == s[k];
    }
  }

  /** Slash-free texts before the same text are equal when the whole texts are, if that text holds a slash. */
  lemma SameBeforeSlash(x: string, y: string, p: string, r: string, q: string)
    requires '/' !in x && '/' !in y && '/' in p && x + p + r == y + p + q
    ensures x == y
  {
    CutSound(p, '/');
    var (before, after) := Cut(p, '/').value;
    assert x + p + r == (x + before) + ['/'] + (after + r);
    assert y + p + q == (y + before) + ['/'] + (after + q);
    CutAt(x + before, after + r, '/');
    CutAt(y + before, after + q, '/');
    assert (x + before)[..|x|] == x && (y + before)[..|y|] == y;
  }

  lemma {:induction false} FirstDiffers(s: seq<Piece>, u: seq<Piece>) returns (j: nat)
    requires |s| == |u| && s != u
    ensures j < |s| && s[j] != u[j] && s[..j] == u[..j]
  {
    if s[0] != u[0] {
      j := 0;
    } else {
      assert s == [s[0]] + s[1..] && u == [u[0]] + u[1..];
      j := FirstDiffers(s[1..], u[1..]);
      j := j + 1;
      assert s[..j] == [s[0]] + s[1..][..j - 1] && u[..j] == [u[0]] + u[1..][..j - 1];
    }
  }

  lemma {:induction false} SlashRendered(t: seq<Piece>, k: nat)
    requires k < |t| && t[k].Lit? && '/' in t[k].text
    ensures '/' in Render(t)
  {
    if k > 0 {
      SlashRendered(t[1..], k - 1);
    }
  }

  lemma SameFront(x: string, y: string, r: string)
    requires x + r == y + r
    ensures x == y
  {
    assert |x + r| == |x| + |r| && |y + r| == |y| + |r|;
    assert (x + r)[..|x|] == x && (y + r)[..|y|] == y;
  }

  lemma SameHead(s: seq<Piece>, u: seq<Piece>)
    requires Variants(s, u) && |s| > 0 && Render(s) == Render(u)
    ensures s[0] == u[0]
  {
    var a, b := s[1..], u[1..];
    if s[0].Lit? && u[0].Lit? && a == b {
      SameFront(s[0].text, u[0].text, Render(a));
    } else if s[0] != u[0] {
      var j := FirstDiffers(a, b);
      assert SlashBetween(s, 0, j + 1);
      var k :| 0 < k < j + 1 && s[k].Lit? && '/' in s[k].text;
      assert a[..j][k - 1] == s[k];
      SlashRendered(a[..j], k - 1);
      SameBefore(s[0].text, u[0].text, a, b, j);
    }
  }

  lemma SameBefore(x: string, y: string, a: seq<Piece>, b: seq<Piece>, j: nat)
    requires '/' !in x && '/' !in y && x + Render(a) == y + Render(b)
    requires j <= |a| && j <= |b| && a[..j] == b[..j] && '/' in Render(a[..j])
    ensures x == y
  {
    var p, r, q := Render(a[..j]), Render(a[j..]), Render(b[j..]);
    SplitRender(a, j);
    SplitRender(b, j);
    Associative(x, p, r);
    Associative(y, p, q);
    SameBeforeSlash(x, y, p, r, q);
  }

  lemma SplitRender(t: seq<Piece>, j: nat)
    requires j <= |t|
    ensures Render(t) == Render(t[..j]) + Render(t[j..])
  {
    assert t == t[..j] + t[j..];
    RenderAppend(t[..j], t[j..]);
  }

  /** Such templates are equal when their texts are. */
  lemma {:induction false} TextTells(s: seq<Piece>, u: seq<Piece>)
    requires Variants(s, u) && Render(s) == Render(u)
    ensures s == u
  {
    if |s| > 0 {
      SameHead(s, u);
      VariantsOn(s, u);
      var n := |RenderPiece(s[0])|;
      assert Render(s)[n..] == Render(s[1..]) && Render(u)[n..] == Render(u[1..]);
      TextTells(s[1..], u[1..]);
      assert s == [s[0]] + s[1..] && u == [u[0]] + u[1..];
    }
  }

  ghost predicate AllReached(t: seq<Piece>, params: seq<Bytes>) {
    forall i | 0 <= i < |t| && t[i].Hole? && Lookup(params, t[i].name).Some? :: ValueAt(t, params, i).Some?
  }

  lemma ReachedVariants(t: seq<Piece>, params: seq<Bytes>)
    requires Parted(t) && AllReached(t, params)
    ensures Variants(Filled(t, params), Substituted(t, params))
  {
    var s, u := Filled(t, params), Substituted(t, params);
    if |t| == 0 {
      FilledNone(params);
    } else {
      FilledAt(t, params, 0);
    }
    forall i | 0 <= i < |t|
      ensures t[i].Lit? ==> s[i] == t[i]
      ensures s[i] != u[i] ==> t[i].Hole? && s[i].Lit? && u[i].Lit? && '/' !in s[i].text && '/' !in u[i].text
    {
      FilledAt(t, params, i);
      if t[i].Hole? && Lookup(params, t[i].name).Some? {
        EscapeBraceless(ValueAt(t, params, i).value);
        EscapeBraceless(Lookup(params, t[i].name).value);
      } else if t[i].Hole? && ValueAt(t, params, i).Some? {
        NthHasFirst(params, t[i].name, HoleCount(t[..i], t[i].name));
      }
    }
    forall i, j | 0 <= i < j < |s| && s[i] != u[i] && s[j] != u[j]
      ensures SlashBetween(s, i, j)
    {
      assert SlashBetween(t, i, j);
      var k :| i < k < j && t[k].Lit? && '/' in t[k].text;
      assert s[k] == t[k];
    }
  }

  // ---------- the main theorem ----------

  /** Substituting one parameter after another gives the same path as substituting all of them at once when
      each placeholder is served the value of its name. Only then does it, if the placeholders are in segments
      of their own or the parameters have distinct names; and in every case only if each is reached.
   */
  lemma RouteIsSubstitution(t: seq<Piece>, params: seq<Bytes>)
    requires WellFormed(t) && NamesClosed(params)
    ensures var same := RoutePath(Render(t), params) == Render(Substituted(t, params));
            && (EachServed(t, params) ==> same)
            && (same ==> AllReached(t, params))
            && (Parted(t) || NamesDistinct(params) ==> (same <==> EachServed(t, params)))
  {
    RouteFills(t, params);
    FilledIff(t, params);
    if !AllReached(t, params) {
      var j :| 0 <= j < |t| && t[j].Hole? && Lookup(params, t[j].name).Some? && ValueAt(t, params, j).None?;
      UnreachedDiffers(t, params, j);
    } else if Parted(t) {
      ReachedVariants(t, params);
      if Render(Filled(t, params)) == Render(Substituted(t, params)) {
        TextTells(Filled(t, params), Substituted(t, params));
      }
    } else if NamesDistinct(params) {
      ReachedServed(t, params);
    }
  }

  /** With distinct names a placeholder that is reached is served. */
  lemma ReachedServed(t: seq<Piece>, params: seq<Bytes>)
    requires NamesDistinct(params) && AllReached(t, params)
    ensures EachServed(t, params)
  {
    forall i | 0 <= i < |t| && t[i].Hole?
      ensures ValueAt(t, params, i) == Lookup(params, t[i].name)
    {
      var k := HoleCount(t[..i], t[i].name);
      if k > 0 {
        NthDistinct(params, t[i].name, k);
      } else {
        NthFirst(params, t[i].name);
      }
    }
  }

  /** For a pattern no placeholder of which is there twice the path is the simultaneous substitution, in
      whatever order the parameters come, when they give each name the same value.
   */
  lemma RouteOrder(t: seq<Piece>, a: seq<Bytes>, b: seq<Bytes>)
    requires WellFormed(t) && NamesClosed(a) && NamesClosed(b) && ValuedOnce(t, a)
    requires forall i | 0 <= i < |t| && t[i].Hole? :: Lookup(a, t[i].name) == Lookup(b, t[i].name)
    ensures RoutePath(Render(t), a) == RoutePath(Render(t), b) == Render(Substituted(t, a))
  {
    OnceServed(t, a);
    OnceServed(t, b);
    RouteIsSubstitution(t, a);
    RouteIsSubstitution(t, b);
    assert Substituted(t, a) == Substituted(t, b);
  }

  // ---------- segments ----------

  lemma {:induction false} SplitCount(s: string, c: char)
    ensures |Split(s, c)| == Occurrences(s, c) + 1
  {
    if |s| > 0 {
      SplitCount(s[1..], c);
    }
  }

  /** A character that ends or divides a path. */
  ghost predicate Delimiter(c: char) {
    c == '/' || c == '?' || c == '#'
  }

  ghost predicate NamesLack(params: seq<Bytes>, c: char) {
    forall i | 0 <= i < |params| && i % 2 == 0 :: c !in params[i]
  }

  /** Filling placeholders whose names hold no delimiter leaves the delimiters as they are. */
  lemma {:induction false} FillKeeps(t: seq<Piece>, name: string, value: Bytes, c: char)
    requires Delimiter(c) && c !in name
    ensures Occurrences(Render(FillFirst(t, name, PathEscape(value))), c) == Occurrences(Render(t), c)
  {
    if |t| > 0 {
      var u := FillFirst(t, name, PathEscape(value));
      OccurrencesAppend(RenderPiece(t[0]), Render(t[1..]), c);
      OccurrencesAppend(RenderPiece(u[0]), Render(u[1..]), c);
      if t[0] == Hole(name) {
        EscapeSafe(value, c);
        NoOccurrence(PathEscape(value), c);
        NoOccurrence(Brace(name), c);
        assert u[1..] == t[1..];
      } else {
        FillKeeps(t[1..], name, value, c);
        assert u[1..] == FillFirst(t[1..], name, PathEscape(value));
      }
    }
  }

  lemma {:induction false} FilledKeeps(t: seq<Piece>, params: seq<Bytes>, c: char)
    requires Delimiter(c) && NamesLack(params, c)
    ensures Occurrences(Render(Filled(t, params)), c) == Occurrences(Render(t), c)
    decreases |params|
  {
    if |params| >= 2 {
      assert forall i | 0 <= i < |params| - 2 :: params[2..][i] == params[i + 2];
      FillKeeps(t, params[0], params[1], c);
      FilledKeeps(FillFirst(t, params[0], PathEscape(params[1])), params[2..], c);
    }
  }

  /** A path holds slashes, question marks and number signs exactly as often as its pattern, whatever the values
      hold; so no value begins a segment, a query or a fragment.
   */
  lemma RouteDelimiters(t: seq<Piece>, params: seq<Bytes>, c: char)
    requires WellFormed(t) && NamesClosed(params) && (c == '/' || c == '?' || c == '#') && NamesLack(params, c)
    ensures Occurrences(RoutePath(Render(t), params), c) == Occurrences(Render(t), c)
  {
    RouteFills(t, params);
    FilledKeeps(t, params, c);
  }

  /** The path has as many segments as the pattern, whatever the values hold, and each value decodes from the
      part that stands for it.
   */
  lemma RouteSegments(t: seq<Piece>, params: seq<Bytes>)
    requires WellFormed(t) && NamesClosed(params) && NamesLack(params, '/')
    ensures |Split(RoutePath(Render(t), params), '/')| == |Split(Render(t), '/')|
    ensures forall i | 0 <= i < |t| && t[i].Hole? && Lookup(params, t[i].name).Some? ::
              var part := Substituted(t, params)[i];
              part.Lit? && PathUnescape(part.text) == Lookup(params, t[i].name)
  {
    RouteFills(t, params);
    FilledKeeps(t, params, '/');
    SplitCount(Render(t), '/');
    SplitCount(Render(Filled(t, params)), '/');
    forall i | 0 <= i < |t| && t[i].Hole? && Lookup(params, t[i].name).Some?
      ensures PathUnescape(Substituted(t, params)[i].text) == Lookup(params, t[i].name)
    {
      UnescapeEscape(Lookup(params, t[i].name).value);
    }
  }

  /** Piece i fills a segment of its own. */
  predicate Alone(t: seq<Piece>, i: nat)
    requires i < |t|
  {
    && (i > 0 ==> t[i - 1].Lit? && |t[i - 1].text| > 0 && t[i - 1].text[|t[i - 1].text| - 1] == '/')
    && (i + 1 < |t| ==> t[i + 1].Lit? && |t[i + 1].text| > 0 && t[i + 1].text[0] == '/')
  }

  lemma RenderAround(t: seq<Piece>, i: nat)
    requires i < |t|
    ensures Render(t) == Render(t[..i]) + RenderPiece(t[i]) + Render(t[i + 1..])
  {
    assert t == t[..i] + t[i..] && t[i..][1..] == t[i + 1..];
    RenderAppend(t[..i], t[i..]);
  }

  lemma SegmentEdges(t: seq<Piece>, i: nat)
    requires i < |t| && Alone(t, i)
    ensures var a, b := Render(t[..i]), Render(t[i + 1..]);
            (a == "" || a[|a| - 1] == '/') && (b == "" || b[0] == '/')
  {
    if i > 0 {
      EdgeBefore(t[..i]);
    }
    if i + 1 < |t| {
      EdgeAfter(t[i + 1..]);
    }
  }

  lemma EdgeBefore(t: seq<Piece>)
    requires |t| > 0 && t[|t| - 1].Lit? && |t[|t| - 1].text| > 0
    ensures |Render(t)| > 0 && Render(t)[|Render(t)| - 1] == t[|t| - 1].text[|t[|t| - 1].text| - 1]
  {
    RenderAround(t, |t| - 1);
    assert t[|t|..] == [] && Render([]) == "";
  }

  lemma EdgeAfter(t: seq<Piece>)
    requires |t| > 0 && t[0].Lit? && |t[0].text| > 0
    ensures |Render(t)| > 0 && Render(t)[0] == t[0].text[0]
  {
  }

  /** Text between slashes is the piece of the split that has as many slashes before it. */
  lemma OwnSegment(a: string, x: string, b: string)
    requires (a == "" || a[|a| - 1] == '/') && (b == "" || b[0] == '/') && '/' !in x
    ensures var k, parts := Occurrences(a, '/'), Split(a + x + b, '/');
            k < |parts| && parts[k] == x
  {
    SegmentFirst(x, b);
    Associative(a, x, b);
    SegmentAt(a, x + b);
  }

  /** A split past a slash goes on with the pieces of the rest. */
  lemma SegmentAt(a: string, rest: string)
    requires a == "" || a[|a| - 1] == '/'
    ensures var k, parts := Occurrences(a, '/'), Split(a + rest, '/');
            k < |parts| && parts[k] == Split(rest, '/')[0]
  {
    if a == "" {
      assert a + rest == rest;
    } else {
      var front := a[..|a| - 1];
      assert a == front + ['/'];
      SplitAppend(front, rest, '/');
      OccurrencesAppend(front, ['/'], '/');
      SplitCount(front, '/');
    }
  }

  lemma SegmentFirst(x: string, b: string)
    requires (b == "" || b[0] == '/') && '/' !in x
    ensures Split(x + b, '/')[0] == x
  {
    SplitFree(x, '/');
    if b == "" {
      assert x + b == x;
    } else {
      assert x + b == x + ['/'] + b[1..];
      SplitAppend(x, b[1..], '/');
    }
  }

  /** The pieces before one that fills a segment hold as many slashes once substituted. */
  lemma SlashesBefore(t: seq<Piece>, params: seq<Bytes>, i: nat)
    requires EachServed(t, params) && NamesLack(params, '/') && i < |t|
    ensures Occurrences(Render(Substituted(t, params)[..i]), '/') == Occurrences(Render(t[..i]), '/')
  {
    assert forall j | 0 <= j < i :: t[..i][..j] == t[..j];
    FilledIff(t[..i], params);
    assert Substituted(t[..i], params) == Substituted(t, params)[..i];
    FilledKeeps(t[..i], params, '/');
  }

  lemma PieceSegment(t: seq<Piece>, i: nat)
    requires i < |t| && Alone(t, i) && '/' !in RenderPiece(t[i])
    ensures var k, parts := Occurrences(Render(t[..i]), '/'), Split(Render(t), '/');
            k < |parts| && parts[k] == RenderPiece(t[i])
  {
    RenderAround(t, i);
    SegmentEdges(t, i);
    OwnSegment(Render(t[..i]), RenderPiece(t[i]), Render(t[i + 1..]));
  }

  lemma AloneStays(t: seq<Piece>, params: seq<Bytes>, i: nat)
    requires i < |t| && Alone(t, i)
    ensures Alone(Substituted(t, params), i)
  {
  }

  lemma TextSegment(t: seq<Piece>, i: nat, text: string, k: nat)
    requires i < |t| && Alone(t, i) && t[i] == Lit(text) && '/' !in text && k == Occurrences(Render(t[..i]), '/')
    ensures k < |Split(Render(t), '/')| && Split(Render(t), '/')[k] == text
  {
    PieceSegment(t, i);
  }

  lemma ValueSegment(t: seq<Piece>, params: seq<Bytes>, i: nat, k: nat)
    requires i < |t| && Alone(t, i) && t[i].Hole? && Lookup(params, t[i].name).Some?
    requires k == Occurrences(Render(Substituted(t, params)[..i]), '/')
    ensures var path := Split(Render(Substituted(t, params)), '/');
            k < |path| && PathUnescape(path[k]) == Lookup(params, t[i].name)
  {
    var value := Lookup(params, t[i].name).value;
    AloneStays(t, params, i);
    EscapeBraceless(value);
    TextSegment(Substituted(t, params), i, PathEscape(value), k);
    UnescapeEscape(value);
  }

  /** A segment of the pattern that is a placeholder becomes, in the same place, a segment that decodes to the
      value of that name.
   */
  lemma SegmentDecodes(t: seq<Piece>, params: seq<Bytes>, i: nat)
    requires WellFormed(t) && NamesClosed(params) && EachServed(t, params) && NamesLack(params, '/')
    requires i < |t| && Alone(t, i) && t[i].Hole? && '/' !in t[i].name && Lookup(params, t[i].name).Some?
    ensures var k := Occurrences(Render(t[..i]), '/');
            var pattern, path := Split(Render(t), '/'), Split(RoutePath(Render(t), params), '/');
            && k < |pattern| == |path|
            && pattern[k] == Brace(t[i].name) && PathUnescape(path[k]) == Lookup(params, t[i].name)
  {
    var path := RoutePath(Render(t), params);
    assert path == Render(Substituted(t, params)) by { RouteIsSubstitution(t, params); }
    assert |Split(path, '/')| == |Split(Render(t), '/')| by { RouteSegments(t, params); }
    SlashesBefore(t, params, i);
    PieceSegment(t, i);
    ValueSegment(t, params, i, Occurrences(Render(t[..i]), '/'));
  }

  /** A character that cannot begin a placeholder of this name is passed over. */
  lemma IndexOn(c: char, s: string, old_: string)
    requires !(old_ <= [c] + s)
    ensures Index([c] + s, old_) == 1 + Index(s, old_)
  {
    assert ([c] + s)[1..] == s;
  }

  lemma OpenBracePassed(rest: string)
    ensures ReplaceFirst("{a" + rest, "{b}", "c") == "{a" + ReplaceFirst(rest, "{b}", "c")
  {
    assert "{a" + rest == ['{'] + ("a" + rest) && "a" + rest == ['a'] + rest;
    assert (['{'] + ("a" + rest))[1] != "{b}"[1] && (['a'] + rest)[0] != "{b}"[0];
    IndexOn('{', "a" + rest, "{b}");
    IndexOn('a', rest, "{b}");
    ReplaceAfter("{a", rest, "{b}", "c");
  }

  lemma PlainValue(c: Byte)
    requires Plain(c)
    ensures PathEscape([c]) == [c]
  {
    assert PathEscape([c][1..]) == "";
  }

  lemma InnerFilled()
    ensures ReplaceFirst("{a{b}}", "{b}", "c") == "{ac}"
  {
    OpenBracePassed("{b}" + "}");
    HoleInFront("{b}", "}", "c");
    assert "{a" + ("{b}" + "}") == "{a{b}}" && "{a" + ("c" + "}") == "{ac}";
  }

  lemma OuterFilled()
    ensures ReplaceFirst("{ac}", "{ac}", "d") == "d"
  {
    HoleInFront("{ac}", "", "d");
    assert "{ac}" + "" == "{ac}" && "d" + "" == "d";
  }

  lemma RouteOn(pattern: string, name: Bytes, value: Bytes, rest: seq<Bytes>, next: string)
    requires ReplaceFirst(pattern, Brace(name), PathEscape(value)) == next
    ensures RoutePath(pattern, [name, value] + rest) == RoutePath(next, rest)
  {
    assert ([name, value] + rest)[2..] == rest;
  }

  /** A brace left open in the pattern's own text can close around a value and be taken for a placeholder. */
  lemma OpenBraceTaken()
    ensures RoutePath("{a{b}}", ["b", "c"] + ["ac", "d"]) == "d"
  {
    var b: Bytes, ac: Bytes := "b", "ac";
    InnerFilled();
    OuterFilled();
    PlainValue('c');
    PlainValue('d');
    assert Brace(b) == "{b}" && Brace(ac) == "{ac}";
    RouteOn("{a{b}}", b, "c", [ac, "d"], "{ac}");
    RouteOn("{ac}", ac, "d", [], "d");
    assert [ac, "d"] + [] == [ac, "d"];
  }

  /** A placeholder that is there twice, and one pair of its name: the second is left as it was. */
  lemma SecondLeft()
    ensures RoutePath("{a}{a}", ["a", "x"] + []) == "x{a}"
  {
    var a: Bytes := "a";
    HoleInFront("{a}", "{a}", "x");
    PlainValue('x');
    assert Brace(a) == "{a}" && "{a}" + "{a}" == "{a}{a}" && "x" + "{a}" == "x{a}";
    RouteOn("{a}{a}", a, "x", [], "x{a}");
  }

  lemma RenderFour(p: string, q: string, r: string, v: string)
    ensures Render([Lit(p), Lit(q), Lit(r), Lit(v)]) == p + (q + (r + v))
  {
    RenderFront(Lit(p), [Lit(q), Lit(r), Lit(v)]);
    RenderFront(Lit(q), [Lit(r), Lit(v)]);
    RenderFront(Lit(r), [Lit(v)]);
    RenderFront(Lit(v), []);
  }

  /** Placeholders with nothing between them, and names with two values: each placeholder gets a value of its
      own, and still the text happens to be the one with the first values alone.
   */
  lemma ValuesCoincide(t: seq<Piece>, params: seq<Bytes>)
    requires t == [Hole("a"), Hole("a"), Hole("b"), Hole("b")]
    requires params == ["a", "x", "a", "xy", "b", "y", "b", ""]
    ensures !EachServed(t, params) && RoutePath(Render(t), params) == Render(Substituted(t, params)) == "xxyy"
  {
    CoincidingPieces(t, params);
    RouteFills(t, params);
    RenderFour("x", "xy", "y", "");
    RenderFour("x", "x", "y", "y");
    SameTexts();
    FilledIff(t, params);
    assert Filled(t, params)[1] != Substituted(t, params)[1];
  }

  lemma SameTexts()
    ensures "x" + ("xy" + ("y" + "")) == "xxyy" && "x" + ("x" + ("y" + "y")) == "xxyy"
  {
  }

  lemma CoincidingTurns(t: seq<Piece>)
    requires t == [Hole("a"), Hole("a"), Hole("b"), Hole("b")]
    ensures HoleCount(t[..0], "a") == 0 && HoleCount(t[..1], "a") == 1
    ensures HoleCount(t[..2], "b") == 0 && HoleCount(t[..3], "b") == 1
  {
    HoleBefore(t[..2], "b");
    var two, one := [Hole("a"), Hole("b")], [Hole("b")];
    assert t[..3][1..] == two && two[1..] == one && one[1..] == [] && t[..1][1..] == [];
    assert HoleCount(one, "b") == 1 && HoleCount(two, "b") == 1;
  }

  lemma CoincidingValues(params: seq<Bytes>)
    requires params == ["a", "x", "a", "xy", "b", "y", "b", ""]
    ensures Nth(params, "a", 0) == Lookup(params, "a") == Some("x") && Nth(params, "a", 1) == Some("xy")
    ensures Nth(params, "b", 0) == Lookup(params, "b") == Some("y") && Nth(params, "b", 1) == Some("")
  {
    var p2, p4, p6 := params[2..], params[4..], params[6..];
    assert p2[2..] == p4 && p4[2..] == p6;
    assert Nth(p6, "b", 0) == Some("") && Nth(p4, "b", 1) == Some("") && Nth(p4, "b", 0) == Some("y");
    assert Nth(p2, "b", 1) == Some("") && Nth(p2, "b", 0) == Some("y") && Nth(p2, "a", 0) == Some("xy");
    NthFirst(params, "a");
    NthFirst(params, "b");
  }

  lemma CoincidingPieces(t: seq<Piece>, params: seq<Bytes>)
    requires t == [Hole("a"), Hole("a"), Hole("b"), Hole("b")]
    requires params == ["a", "x", "a", "xy", "b", "y", "b", ""]
    ensures Filled(t, params) == [Lit("x"), Lit("xy"), Lit("y"), Lit("")]
    ensures Substituted(t, params) == [Lit("x"), Lit("x"), Lit("y"), Lit("y")]
  {
    CoincidingTurns(t);
    CoincidingValues(params);
    CoincidingTexts();
    FilledAt(t, params, 0);
    FilledAt(t, params, 1);
    FilledAt(t, params, 2);
    FilledAt(t, params, 3);
  }

  lemma CoincidingTexts()
    ensures PathEscape("x") == "x" && PathEscape("y") == "y" && PathEscape("xy") == "xy" && PathEscape("") == ""
  {
    PlainValue('x');
    PlainValue('y');
    assert "xy"[1..] == "y";
  }
}
