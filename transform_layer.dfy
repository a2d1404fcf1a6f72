/** Placeholder substitution in a JSON layer schema: every `#ARGS.<name>;`
    token is replaced by the rendered value of argument <name>. A token in
    double quotes loses its quotes, and a string value put there gets them
    back; Python booleans are written as JSON true/false. */
module TransformLayer {
  import opened Results

  /** An argument value, as far as its rendering is concerned. */
  datatype Value =
    | Str(text: string)          // a Python str
    | Bool(flag: bool)           // a Python bool
    | Other(rendered: string)    // anything else, by what str() gives for it

  datatype Error = KeyError(name: string)

  /** The fixed part in front of every placeholder name. */
  const Marker: string := "#ARGS."

  function Token(name: string): (r: string)
  {
    Marker + name + ";"
  }

  function Quote(s: string): (r: string)
  {
    "\"" + s + "\""
  }

  // ---------------------------------------------------------------------
  // Substring search and replacement
  // ---------------------------------------------------------------------

  predicate OccursAt(s: string, t: string, j: nat)
  {
    j + |t| <= |s| && s[j..j + |t|] == t
  }

  ghost predicate Occurs(s: string, t: string)
  {
    exists j: nat :: OccursAt(s, t, j)
  }

  lemma OccursAtTail(s: string, t: string, j: nat)
    requires |s| > 0
    ensures OccursAt(s[1..], t, j) <==> OccursAt(s, t, j + 1)
  {
    if j + |t| <= |s[1..]| {
      assert s[1..][j..j + |t|] == s[j + 1..j + 1 + |t|];
    }
  }

  /** str.find: the first position where t occurs, or -1. */
  function Find(s: string, t: string): (r: int)
    ensures r == -1 <==> !Occurs(s, t)
    ensures r != -1 ==> 0 <= r && OccursAt(s, t, r) && forall j: nat :: j < r ==> !OccursAt(s, t, j)
    decreases |s|
  {
    if |s| < |t| then
      assert forall j: nat :: !OccursAt(s, t, j);
      -1
    else if s[..|t|] == t then
      assert OccursAt(s, t, 0);
      0
    else
      var k := Find(s[1..], t);
      assert !OccursAt(s, t, 0);
      assert forall j: nat :: OccursAt(s[1..], t, j) <==> OccursAt(s, t, j + 1) by {
        forall j: nat ensures OccursAt(s[1..], t, j) <==> OccursAt(s, t, j + 1) {
          OccursAtTail(s, t, j);
        }
      }
      assert forall j: nat :: OccursAt(s, t, j) ==> j == 0 || OccursAt(s[1..], t, j - 1);
      if k == -1 then -1 else k + 1
  }

  /** str.replace: every non-overlapping occurrence of `pat`, scanning left
      to right, becomes `rep`. */
  function ReplaceAll(s: string, pat: string, rep: string): (r: string)
    requires pat != []
    ensures |rep| >= |pat| ==> |r| >= |s|
    ensures |rep| <= |pat| ==> |r| <= |s|
    decreases |s|
  {
    if |s| < |pat| then s
    else if s[..|pat|] == pat then rep + ReplaceAll(s[|pat|..], pat, rep)
    else [s[0]] + ReplaceAll(s[1..], pat, rep)
  }

  /** Replacing a string that does not occur changes nothing. */
  lemma {:induction false} ReplaceAllAbsent(s: string, pat: string, rep: string)
    requires pat != [] && !Occurs(s, pat)
    ensures ReplaceAll(s, pat, rep) == s
    decreases |s|
  {
    if |s| >= |pat| {
      assert !OccursAt(s, pat, 0);
      if Occurs(s[1..], pat) {
        var j: nat :| OccursAt(s[1..], pat, j);
        OccursAtTail(s, pat, j);
      }
      ReplaceAllAbsent(s[1..], pat, rep);
      assert s == [s[0]] + s[1..];
    }
  }

  /** A string holding a '#' cannot occur in a text without one. */
  lemma NoHashNoOccurrence(s: string, t: string, h: nat)
    requires h < |t| && t[h] == '#' && '#' !in s
    ensures !Occurs(s, t)
  {
    forall j: nat ensures !OccursAt(s, t, j) {
      if j + |t| <= |s| {
        assert s[j..j + |t|][h] == s[j + h];
      }
    }
  }

  /** Where `pat` does not start, the first character is kept. */
  lemma ReplaceKeepsFirst(t: string, pat: string, rep: string)
    requires pat != [] && t != [] && !(|pat| <= |t| && t[..|pat|] == pat)
    ensures ReplaceAll(t, pat, rep) == [t[0]] + ReplaceAll(t[1..], pat, rep)
  {
    if |t| < |pat| {
      assert ReplaceAll(t[1..], pat, rep) == t[1..];
      assert t == [t[0]] + t[1..];
    }
  }

  /** Where `pat` starts, it is replaced. */
  lemma ReplaceAtStart(t: string, pat: string, rep: string)
    requires pat != [] && |pat| <= |t| && t[..|pat|] == pat
    ensures ReplaceAll(t, pat, rep) == rep + ReplaceAll(t[|pat|..], pat, rep)
  {
  }

  /** The suffix form of ReplaceSplice: from any position k inside the
      stretch, replacement keeps the rest of the stretch and then rewrites
      the occurrence. */
  lemma {:induction false} ReplaceSpliceFrom(s: string, a: string, pat: string, b: string, rep: string, h: nat, k: nat)
    requires h < |pat| && pat[h] == '#' && forall j :: 0 <= j < h ==> pat[j] != '#'
    requires '#' !in a && s == a + pat + b && k <= |a|
    ensures ReplaceAll(s[k..], pat, rep) == a[k..] + rep + ReplaceAll(b, pat, rep)
    decreases |a| - k
  {
    var t := s[k..];
    if k == |a| {
      assert t[..|pat|] == pat;
      ReplaceAtStart(t, pat, rep);
      assert t[|pat|..] == b;
      assert a[k..] == [];
    } else {
      if k + h < |a| {
        assert t[h] == a[k + h];
      } else {
        assert t[h] == pat[k + h - |a|];
      }
      assert |pat| <= |t| ==> t[..|pat|][h] != pat[h];
      ReplaceKeepsFirst(t, pat, rep);
      assert t[1..] == s[k + 1..];
      ReplaceSpliceFrom(s, a, pat, b, rep, h, k + 1);
      assert [t[0]] + a[k + 1..] == a[k..];
    }
  }

  /** An occurrence of `pat`, the first '#' of which is at offset h, after
      a stretch without '#': replacement leaves the stretch alone, rewrites
      that occurrence and carries on after it. */
  lemma ReplaceSplice(a: string, pat: string, b: string, rep: string, h: nat)
    requires h < |pat| && pat[h] == '#' && forall k :: 0 <= k < h ==> pat[k] != '#'
    requires '#' !in a
    ensures ReplaceAll(a + pat + b, pat, rep) == a + rep + ReplaceAll(b, pat, rep)
  {
    var s := a + pat + b;
    ReplaceSpliceFrom(s, a, pat, b, rep, h, 0);
    assert s[0..] == s && a[0..] == a;
  }

  // ---------------------------------------------------------------------
  // Finding placeholders: re.findall(r"#ARGS\.(.+?);", s)
  // ---------------------------------------------------------------------

  /** Scanning from j, the first ';' before any newline ('.' does not match
      a newline), if there is one. */
  function CloseAt(s: string, j: nat): (r: Option<nat>)
    ensures r.Some? ==> (j <= r.value < |s| && s[r.value] == ';' &&
      forall k :: j <= k < r.value ==> s[k] != ';' && s[k] != '\n')
    ensures r.None? ==> forall q :: j <= q < |s| && s[q] == ';' ==> exists k :: j <= k < q && s[k] == '\n'
    decreases |s| - j
  {
    if j >= |s| then None
    else if s[j] == ';' then Some(j)
    else if s[j] == '\n' then
      assert forall q :: j <= q < |s| && s[q] == ';' ==> j < q && s[j] == '\n';
      None
    else CloseAt(s, j + 1)
  }

  /** A placeholder starting at i: the marker, at least one name character
      other than a newline, and the shortest run up to the next ';' with no
      newline in it. The result is the position of that ';'. */
  function MatchAt(s: string, i: nat): (r: Option<nat>)
    ensures r.Some? ==>
      var q := r.value;
      OccursAt(s, Marker, i) && i + 7 <= q < |s| && s[q] == ';' && s[i + 6] != '\n' &&
      (forall k :: i + 7 <= k < q ==> s[k] != ';' && s[k] != '\n')
    ensures r.None? && OccursAt(s, Marker, i) && i + 6 < |s| && s[i + 6] != '\n' ==>
      forall q :: i + 7 <= q < |s| && s[q] == ';' ==> exists k :: i + 7 <= k < q && s[k] == '\n'
    ensures !OccursAt(s, Marker, i) ==> r.None?
  {
    if i + 6 < |s| && s[i..i + 6] == Marker && s[i + 6] != '\n' then CloseAt(s, i + 7)
    else None
  }

  /** All placeholder names from position i on, left to right, a new search
      starting after each match. */
  function FindAll(s: string, i: nat): (r: seq<string>)
    decreases |s| - i
  {
    if i >= |s| then []
    else match MatchAt(s, i)
      case Some(q) => [s[i + 6..q]] + FindAll(s, q + 1)
      case None => FindAll(s, i + 1)
  }

  /** Matches do not overlap and each takes at least eight characters (the
      marker, one name character and the ';'), so a text of length L holds
      at most L / 8 placeholders. */
  lemma {:induction false} FindAllBound(s: string, i: nat)
    requires i <= |s|
    ensures 8 * |FindAll(s, i)| <= |s| - i
    decreases |s| - i
  {
    if i < |s| {
      match MatchAt(s, i)
      case Some(q) => FindAllBound(s, q + 1);
      case None => FindAllBound(s, i + 1);
    }
  }

  /** Where the matches of FindAll lie: the start of each marker and the
      position of its closing ';'. Each match ends before the next begins,
      since the search resumes after the ';'. */
  function MatchSpans(s: string, i: nat): (r: seq<(nat, nat)>)
    ensures forall k :: 0 <= k < |r| ==> i <= r[k].0 && r[k].0 + 7 <= r[k].1 < |s|
    ensures forall k :: 0 <= k < |r| ==> OccursAt(s, Marker, r[k].0) && s[r[k].1] == ';'
    ensures forall k, l :: 0 <= k < l < |r| ==> r[k].1 < r[l].0
    decreases |s| - i
  {
    if i >= |s| then []
    else match MatchAt(s, i)
      case Some(q) => [(i, q)] + MatchSpans(s, q + 1)
      case None => MatchSpans(s, i + 1)
  }

  /** Each name is the text between the marker and the ';' of its span. */
  predicate SpanNames(s: string, names: seq<string>, spans: seq<(nat, nat)>)
  {
    |names| == |spans| &&
    forall k :: 0 <= k < |spans| ==>
      spans[k].0 + 6 <= spans[k].1 <= |s| && names[k] == s[spans[k].0 + 6..spans[k].1]
  }

  lemma SpanNamesCons(s: string, names: seq<string>, spans: seq<(nat, nat)>, i: nat, q: nat)
    requires SpanNames(s, names, spans) && i + 6 <= q <= |s|
    ensures SpanNames(s, [s[i + 6..q]] + names, [(i, q)] + spans)
  {
    var n, p := [s[i + 6..q]] + names, [(i, q)] + spans;
    forall k | 1 <= k < |p| ensures p[k].0 + 6 <= p[k].1 <= |s| && n[k] == s[p[k].0 + 6..p[k].1] {
      assert n[k] == names[k - 1] && p[k] == spans[k - 1];
    }
  }

  /** The names found are the texts between the marker and the ';' of the
      spans, one per span, so no two names come from overlapping text. */
  lemma {:induction false} FindAllSpans(s: string, i: nat)
    ensures SpanNames(s, FindAll(s, i), MatchSpans(s, i))
    decreases |s| - i
  {
    if i < |s| {
      var m := MatchAt(s, i);
      if m.Some? {
        FindAllSpans(s, m.value + 1);
        SpanNamesCons(s, FindAll(s, m.value + 1), MatchSpans(s, m.value + 1), i, m.value);
      } else {
        FindAllSpans(s, i + 1);
      }
    }
  }

  /** Every name found is non-empty and its token occurs in the text. */
  lemma {:induction false} FindAllNamesOccur(s: string, i: nat)
    ensures forall n :: n in FindAll(s, i) ==> |n| > 0 && Occurs(s, Token(n))
    decreases |s| - i
  {
    if i < |s| {
      match MatchAt(s, i)
      case Some(q) =>
        FindAllNamesOccur(s, q + 1);
        var n := s[i + 6..q];
        assert s[i..q + 1] == s[i..i + 6] + n + [s[q]];
        assert OccursAt(s, Token(n), i);
      case None =>
        FindAllNamesOccur(s, i + 1);
    }
  }

  /** Without the marker there are no placeholders. */
  lemma {:induction false} NoMarkerNoNames(s: string, i: nat)
    requires !Occurs(s, Marker)
    ensures FindAll(s, i) == []
    decreases |s| - i
  {
    if i < |s| {
      assert !OccursAt(s, Marker, i);
      NoMarkerNoNames(s, i + 1);
    }
  }

  /** A stretch without '#' holds no placeholder start. */
  lemma {:induction false} FindAllSkips(s: string, i: nat, k: nat)
    requires i <= k <= |s| && forall j :: i <= j < k ==> s[j] != '#'
    ensures FindAll(s, i) == FindAll(s, k)
    decreases k - i
  {
    if i < k {
      assert !OccursAt(s, Marker, i) by {
        if i + 6 <= |s| {
          assert s[i..i + 6][0] == s[i];
        }
      }
      FindAllSkips(s, i + 1, k);
    }
  }

  /** The matcher only looks forward: a prefix changes nothing but positions. */
  lemma {:induction false} CloseAtShift(p: string, s: string, j: nat)
    ensures CloseAt(p + s, |p| + j) ==
      if CloseAt(s, j).Some? then Some(|p| + CloseAt(s, j).value) else None
    decreases |s| - j
  {
    if j < |s| {
      assert (p + s)[|p| + j] == s[j];
      CloseAtShift(p, s, j + 1);
    }
  }

  lemma MatchAtShift(p: string, s: string, i: nat)
    ensures MatchAt(p + s, |p| + i) ==
      if MatchAt(s, i).Some? then Some(|p| + MatchAt(s, i).value) else None
  {
    if i + 6 < |s| {
      assert (p + s)[|p| + i..|p| + i + 6] == s[i..i + 6];
      assert (p + s)[|p| + i + 6] == s[i + 6];
      CloseAtShift(p, s, i + 7);
    }
  }

  lemma {:induction false} FindAllShift(p: string, s: string, i: nat)
    ensures FindAll(p + s, |p| + i) == FindAll(s, i)
    decreases |s| - i
  {
    if i < |s| {
      var ps := p + s;
      MatchAtShift(p, s, i);
      var r := MatchAt(s, i);
      if r.Some? {
        var q := r.value;
        FindAllShift(p, s, q + 1);
        assert ps[|p| + i + 6..|p| + q] == s[i + 6..q];
      } else {
        FindAllShift(p, s, i + 1);
      }
    }
  }

  /** The characters a placeholder name may consist of here. */
  predicate PlainName(name: string)
  {
    |name| > 0 && ';' !in name && '\n' !in name && '#' !in name
  }

  /** A text starting with a placeholder yields its name, then the names
      after it. */
  lemma TokenFirst(name: string, b: string)
    requires PlainName(name)
    ensures FindAll(Token(name) + b, 0) == [name] + FindAll(b, 0)
  {
    var s := Token(name) + b;
    var q := 6 + |name|;
    assert s[..q + 1] == Token(name);
    assert s[..6] == Marker;
    assert s[6] == name[0];
    assert s[q] == ';';
    forall k | 7 <= k < q ensures s[k] != ';' && s[k] != '\n' {
      assert s[k] == name[k - 6];
    }
    assert CloseAt(s, 7) == Some(q);
    assert s[6..q] == name;
    assert MatchAt(s, 0) == Some(q);
    assert s == Token(name) + b;
    FindAllShift(Token(name), b, 0);
  }

  /** Scanning passes over a leading stretch without '#'. */
  lemma SkipStretch(a: string, t: string)
    requires '#' !in a
    ensures FindAll(a + t, 0) == FindAll(t, 0)
  {
    var s := a + t;
    forall j | 0 <= j < |a| ensures s[j] != '#' {
      assert s[j] == a[j];
    }
    FindAllSkips(s, 0, |a|);
    FindAllShift(a, t, 0);
    assert |a| + 0 == |a|;
  }

  /** A placeholder after a stretch without '#' is the first one found. */
  lemma PlaceholderAfter(a: string, name: string, b: string)
    requires PlainName(name) && '#' !in a
    ensures FindAll(a + Token(name) + b, 0) == [name] + FindAll(b, 0)
  {
    assert a + Token(name) + b == a + (Token(name) + b);
    SkipStretch(a, Token(name) + b);
    TokenFirst(name, b);
  }

  /** A text with one placeholder and no other '#' yields exactly its name. */
  lemma SinglePlaceholder(a: string, name: string, b: string)
    requires PlainName(name) && '#' !in a && '#' !in b
    ensures FindAll(a + Token(name) + b, 0) == [name]
  {
    PlaceholderAfter(a, name, b);
    FindAllSkips(b, 0, |b|);
  }

  // ---------------------------------------------------------------------
  // Substitution
  // ---------------------------------------------------------------------

  /** str(value): a string is itself, a boolean is True or False. */
  function Render(v: Value): (r: string)
    ensures v.Str? ==> r == v.text
    ensures v.Bool? ==> r == if v.flag then "True" else "False"
    ensures v.Other? ==> r == v.rendered
  {
    match v
    case Str(t) => t
    case Bool(b) => if b then "True" else "False"
    case Other(r) => r
  }

  /** The text for an unquoted placeholder: str(value), except that the
      texts True and False become JSON's true and false. */
  function Bare(v: Value): (r: string)
    ensures v.Bool? ==> r == if v.flag then "true" else "false"
    ensures v.Str? && v.text != "True" && v.text != "False" ==> r == v.text
    ensures v.Other? && v.rendered != "True" && v.rendered != "False" ==> r == v.rendered
    ensures Render(v) == "True" ==> r == "true"
    ensures Render(v) == "False" ==> r == "false"
  {
    var t := Render(v);
    if t == "True" then "true" else if t == "False" then "false" else t
  }

  /** The text for a quoted placeholder, replacing the quotes too: a string
      value is put back between double quotes, unescaped; anything else is
      inserted bare. */
  function InQuotes(v: Value): (r: string)
    ensures v.Str? ==> r == Quote(v.text)
    ensures !v.Str? ==> r == Bare(v)
    ensures v.Bool? ==> r == if v.flag then "true" else "false"
  {
    if v.Str? then Quote(v.text) else Bare(v)
  }

  /** One pass of the loop, for one name found in the original text. */
  function Step(s: string, name: string, args: map<string, Value>): (r: Result<string, Error>)
    ensures r.Err? <==> name !in args
    ensures r.Err? ==> r.error == KeyError(name)
  {
    if name !in args then Err(KeyError(name))
    else if Find(s, Quote(Token(name))) != -1 then
      Ok(ReplaceAll(s, Quote(Token(name)), InQuotes(args[name])))
    else Ok(ReplaceAll(s, Token(name), Bare(args[name])))
  }

  /** The passes in order: they fail exactly when a name is missing from
      the arguments, and then with the first missing one. */
  function Fold(s: string, names: seq<string>, args: map<string, Value>): (r: Result<string, Error>)
    ensures r.Err? <==> exists k :: 0 <= k < |names| && names[k] !in args
    ensures r.Err? ==> exists k :: (0 <= k < |names| && names[k] !in args &&
      r.error == KeyError(names[k]) && forall j :: 0 <= j < k ==> names[j] in args)
    decreases |names|
  {
    if names == [] then Ok(s)
    else
      assert forall k :: 1 <= k < |names| ==> names[k] == names[1..][k - 1];
      match Step(s, names[0], args)
      case Err(e) => Err(e)
      case Ok(s') => Fold(s', names[1..], args)
  }

  /** The passes fail with the first missing name. */
  lemma FoldFirstMissing(s: string, names: seq<string>, args: map<string, Value>, k: nat)
    requires k < |names| && names[k] !in args
    requires forall j :: 0 <= j < k ==> names[j] in args
    ensures Fold(s, names, args) == Err(KeyError(names[k]))
  {
    var r := Fold(s, names, args);
    var k' :| 0 <= k' < |names| && names[k'] !in args && r.error == KeyError(names[k']) &&
      forall j :: 0 <= j < k' ==> names[j] in args;
    assert !(k' < k) && !(k < k');
  }

  /** resolve_schema_args as a value: KeyError exactly when a placeholder
      names a missing argument, and then for such a name. */
  function Resolve(s: string, args: map<string, Value>): (r: Result<string, Error>)
    ensures r.Err? <==> exists n :: n in FindAll(s, 0) && n !in args
    ensures r.Err? ==> r.error.name in FindAll(s, 0) && r.error.name !in args
  {
    Fold(s, FindAll(s, 0), args)
  }

  /** resolve_schema_args: one pass per name found in the original text,
      each rewriting the current text. */
  method ResolveSchemaArgs(jfile: string, args: map<string, Value>) returns (r: Result<string, Error>)
    ensures r == Resolve(jfile, args)
  {
    var arguments := FindAll(jfile, 0);
    var text := jfile;
    for i := 0 to |arguments|
      invariant Fold(jfile, arguments, args) == Fold(text, arguments[i..], args)
    {
      var arg := arguments[i];
      assert arguments[i..][0] == arg && arguments[i..][1..] == arguments[i + 1..];
      var replace := Token(arg);
      if arg !in args {
        return Err(KeyError(arg));
      }
      var to := Bare(args[arg]);
      if Find(text, Quote(replace)) != -1 {
        replace := Quote(replace);
        if args[arg].Str? {
          to := Quote(args[arg].text);
        }
      }
      text := ReplaceAll(text, replace, to);
    }
    assert arguments[|arguments|..] == [];
    r := Ok(text);
  }

  // ---------------------------------------------------------------------
  // Lemmas: what the substitution does
  // ---------------------------------------------------------------------

  /** A text without a complete placeholder token comes back unchanged. */
  lemma NoPlaceholderNoChange(s: string, args: map<string, Value>)
    requires forall n :: |n| > 0 ==> !Occurs(s, Token(n))
    ensures Resolve(s, args) == Ok(s)
  {
    FindAllNamesOccur(s, 0);
    var names := FindAll(s, 0);
    assert forall k :: 0 <= k < |names| ==> names[k] in names;
  }

  /** With one name found, resolution is that one pass. */
  lemma ResolveOneName(s: string, name: string, args: map<string, Value>)
    requires FindAll(s, 0) == [name]
    ensures Resolve(s, args) == Step(s, name, args)
  {
    assert [name][1..] == [];
    match Step(s, name, args)
    case Err(_) =>
    case Ok(s') => assert Fold(s', [], args) == Ok(s');
  }

  /** The token's own '#' is the only one of such a text. */
  lemma OnlyHash(a: string, name: string, b: string)
    requires PlainName(name) && '#' !in a && '#' !in b
    ensures forall k :: 0 <= k < |a + Token(name) + b| && k != |a| ==> (a + Token(name) + b)[k] != '#'
  {
    var s := a + Token(name) + b;
    var t := Token(name);
    forall k | 0 <= k < |s| && k != |a| ensures s[k] != '#' {
      if k < |a| {
        assert s[k] == a[k];
      } else if k < |a| + |t| {
        assert s[k] == t[k - |a|];
        if 6 <= k - |a| < 6 + |name| {
          assert t[k - |a|] == name[k - |a| - 6];
        }
      } else {
        assert s[k] == b[k - |a| - |t|];
      }
    }
  }

  /** Unless the token has a double quote on both sides, no quoted token occurs. */
  lemma NoQuotedToken(a: string, name: string, b: string)
    requires PlainName(name) && '#' !in a && '#' !in b
    requires !(|a| > 0 && a[|a| - 1] == '"' && |b| > 0 && b[0] == '"')
    ensures !Occurs(a + Token(name) + b, Quote(Token(name)))
  {
    var s := a + Token(name) + b;
    var qt := Quote(Token(name));
    OnlyHash(a, name, b);
    forall j: nat ensures !OccursAt(s, qt, j) {
      if j + |qt| <= |s| {
        var w := s[j..j + |qt|];
        assert w[1] == s[j + 1];
        if j + 1 == |a| {
          assert w[0] == a[|a| - 1];
          assert w[|qt| - 1] == s[|a| + |Token(name)|] == b[0];
        }
      }
    }
  }

  /** In a text whose only '#' is that of one unquoted placeholder, the
      placeholder becomes the bare rendering of its value. */
  lemma ResolveSingleUnquoted(a: string, name: string, b: string, args: map<string, Value>)
    requires PlainName(name) && '#' !in a && '#' !in b
    requires !(|a| > 0 && a[|a| - 1] == '"' && |b| > 0 && b[0] == '"')
    ensures Resolve(a + Token(name) + b, args) ==
      if name in args then Ok(a + Bare(args[name]) + b) else Err(KeyError(name))
  {
    var s := a + Token(name) + b;
    SinglePlaceholder(a, name, b);
    ResolveOneName(s, name, args);
    if name in args {
      NoQuotedToken(a, name, b);
      NoHashNoOccurrence(b, Token(name), 0);
      ReplaceSplice(a, Token(name), b, Bare(args[name]), 0);
      ReplaceAllAbsent(b, Token(name), Bare(args[name]));
    }
  }

  /** The pass for a quoted placeholder that is the only '#' of the text. */
  lemma StepQuoted(a: string, name: string, b: string, args: map<string, Value>)
    requires PlainName(name) && '#' !in a && '#' !in b && name in args
    ensures Step(a + Quote(Token(name)) + b, name, args) == Ok(a + InQuotes(args[name]) + b)
  {
    var qt := Quote(Token(name));
    var s := a + qt + b;
    var rep := InQuotes(args[name]);
    assert s[|a|..|a| + |qt|] == qt;
    assert OccursAt(s, qt, |a|);
    assert Find(s, qt) != -1;
    assert qt[0] == '"' && qt[1] == '#';
    NoHashNoOccurrence(b, qt, 1);
    ReplaceSplice(a, qt, b, rep, 1);
    ReplaceAllAbsent(b, qt, rep);
  }

  /** A quoted placeholder, the only '#' of the text, is replaced together
      with its quotes: a string value comes back quoted, other values bare. */
  lemma ResolveSingleQuoted(a: string, name: string, b: string, args: map<string, Value>)
    requires PlainName(name) && '#' !in a && '#' !in b
    ensures Resolve(a + Quote(Token(name)) + b, args) ==
      if name in args then Ok(a + InQuotes(args[name]) + b) else Err(KeyError(name))
  {
    var s := a + Quote(Token(name)) + b;
    assert s == (a + "\"") + Token(name) + ("\"" + b);
    SinglePlaceholder(a + "\"", name, "\"" + b);
    ResolveOneName(s, name, args);
    if name in args {
      StepQuoted(a, name, b, args);
    }
  }

  /** Python booleans in unquoted placeholders become JSON literals. */
  lemma BooleanExample()
    ensures Resolve("{\"bias\": #ARGS.bias;}", map["bias" := Bool(true)]) == Ok("{\"bias\": true}")
  {
    var a, b := "{\"bias\": ", "}";
    var args := map["bias" := Bool(true)];
    assert a + Token("bias") + b == "{\"bias\": #ARGS.bias;}";
    assert a + "true" + b == "{\"bias\": true}";
    assert a[|a| - 1] == ' ';
    assert Bare(args["bias"]) == "true";
    ResolveSingleUnquoted(a, "bias", b, args);
  }

  /** A name used both quoted and unquoted is found twice ... */
  lemma MixedNames(name: string)
    requires PlainName(name)
    ensures FindAll(Quote(Token(name)) + " " + Token(name), 0) == [name, name]
  {
    var t := Token(name);
    var s := "\"" + t + ("\" " + t);
    assert s == Quote(t) + " " + t;
    PlaceholderAfter("\"", name, "\" " + t);
    SinglePlaceholder("\" ", name, "");
    assert "\" " + t + "" == "\" " + t;
  }

  /** ... the first pass replaces the quoted token ... */
  lemma MixedFirstPass(name: string, v: string)
    requires PlainName(name)
    ensures Step(Quote(Token(name)) + " " + Token(name), name, map[name := Str(v)]) ==
      Ok(Quote(v) + " " + Token(name))
  {
    var t := Token(name);
    var qt := Quote(t);
    var s := "" + qt + (" " + t);
    assert s == qt + " " + t;
    assert OccursAt(s, qt, 0);
    assert forall j: nat :: !OccursAt(" " + t, qt, j);
    ReplaceSplice("", qt, " " + t, Quote(v), 1);
    ReplaceAllAbsent(" " + t, qt, Quote(v));
    assert "" + Quote(v) + (" " + t) == Quote(v) + " " + t;
  }

  /** ... and the second pass, no longer seeing a quoted token, replaces
      the unquoted one too: both occurrences end up substituted, the
      unquoted one bare. */
  lemma MixedOccurrences(name: string, v: string)
    requires PlainName(name) && '#' !in v
    ensures Resolve(Quote(Token(name)) + " " + Token(name), map[name := Str(v)]) ==
      Ok(Quote(v) + " " + Bare(Str(v)))
  {
    var args := map[name := Str(v)];
    var s := Quote(Token(name)) + " " + Token(name);
    var a := Quote(v) + " ";
    var s1 := a + Token(name) + "";
    assert Quote(v) + " " + Token(name) == s1;
    MixedNames(name);
    MixedFirstPass(name, v);
    assert [name, name][1..] == [name];
    assert Resolve(s, args) == Fold(s1, [name], args);
    SinglePlaceholder(a, name, "");
    assert Fold(s1, [name], args) == Resolve(s1, args);
    ResolveSingleUnquoted(a, name, "", args);
    assert args[name] == Str(v);
    assert a + Bare(Str(v)) + "" == Quote(v) + " " + Bare(Str(v));
  }

  // ---------------------------------------------------------------------
  // Lemmas: texts with several unquoted placeholders
  // ---------------------------------------------------------------------

  /** A placeholder and the plain text that follows it. */
  datatype Part = Part(name: string, after: string)

  /** The placeholder of `name`, or the value `fill` already gives it. */
  function Slot(name: string, fill: map<string, string>): (r: string)
  {
    if name in fill then fill[name] else Token(name)
  }

  /** `head`, then each part's placeholder (or its fill) and its text. */
  function Layout(head: string, parts: seq<Part>, fill: map<string, string>): (r: string)
    decreases |parts|
  {
    if parts == [] then head
    else head + Slot(parts[0].name, fill) + Layout(parts[0].after, parts[1..], fill)
  }

  function Names(parts: seq<Part>): (r: seq<string>)
    ensures |r| == |parts| && forall k :: 0 <= k < |parts| ==> r[k] == parts[k].name
    decreases |parts|
  {
    if parts == [] then [] else [parts[0].name] + Names(parts[1..])
  }

  /** No '#' outside the placeholders, and no placeholder directly followed
      by a double quote (so none is quoted). */
  predicate Unquoted(head: string, parts: seq<Part>)
  {
    '#' !in head &&
    forall k :: 0 <= k < |parts| ==>
      PlainName(parts[k].name) && '#' !in parts[k].after &&
      |parts[k].after| > 0 && parts[k].after[0] != '"'
  }

  predicate HashFree(fill: map<string, string>)
  {
    forall n :: n in fill ==> '#' !in fill[n]
  }

  /** The bare renderings of the names in S. */
  function BareMap(S: set<string>, args: map<string, Value>): (r: map<string, string>)
  {
    map n | n in S && n in args :: Bare(args[n])
  }

  /** Replacement walks over a stretch that cannot start an occurrence. */
  lemma {:induction false} PassThrough(a: string, b: string, pat: string, rep: string)
    requires pat != [] && pat[0] == '#' && '#' !in a
    ensures ReplaceAll(a + b, pat, rep) == a + ReplaceAll(b, pat, rep)
    decreases |a|
  {
    if a == [] {
      assert a + b == b;
    } else {
      var s := a + b;
      assert |pat| <= |s| ==> s[..|pat|][0] == a[0];
      ReplaceKeepsFirst(s, pat, rep);
      assert s[0] == a[0] && s[1..] == a[1..] + b;
      PassThrough(a[1..], b, pat, rep);
      assert [a[0]] + (a[1..] + ReplaceAll(b, pat, rep)) == a + ReplaceAll(b, pat, rep);
    }
  }

  /** A placeholder's only '#' is its first character. */
  lemma TokenHashFirst(m: string)
    requires PlainName(m)
    ensures '#' !in Token(m)[1..]
  {
    var t := Token(m);
    forall k | 1 <= k < |t| ensures t[k] != '#' {
      if 6 <= k < 6 + |m| {
        assert t[k] == m[k - 6];
      }
    }
    assert forall c :: c in t[1..] ==> exists k :: 1 <= k < |t| && t[k] == c;
  }

  /** The placeholder a text starts with is determined by its first ';'. */
  lemma TokenPrefixUnique(n: string, m: string, b: string)
    requires PlainName(n) && PlainName(m)
    ensures |Token(n)| <= |Token(m) + b| && (Token(m) + b)[..|Token(n)|] == Token(n) ==> n == m
  {
    var s := Token(m) + b;
    var tn := Token(n);
    if |tn| <= |s| {
      var p := s[..|tn|];
      if |n| < |m| {
        assert p[6 + |n|] == m[|n|];
        assert tn[6 + |n|] == ';';
      } else if |n| > |m| {
        assert p[6 + |m|] == ';';
        assert tn[6 + |m|] == n[|m|];
      } else {
        assert p[6..6 + |n|] == m;
        assert tn[6..6 + |n|] == n;
      }
    }
  }

  /** Replacement after the first character of a stretch with no '#'
      after that character leaves the rest of the stretch alone. */
  lemma PassAfterHead(t: string, b: string, pat: string, rep: string)
    requires t != [] && pat != [] && pat[0] == '#' && '#' !in t[1..]
    ensures ReplaceAll((t + b)[1..], pat, rep) == t[1..] + ReplaceAll(b, pat, rep)
  {
    assert (t + b)[1..] == t[1..] + b;
    PassThrough(t[1..], b, pat, rep);
  }

  lemma ConsTail(t: string, x: string)
    requires t != []
    ensures [t[0]] + (t[1..] + x) == t + x
  {
    assert t == [t[0]] + t[1..];
  }

  /** Replacement passes over a stretch that starts with something other
      than the pattern and has no '#' after its first character. */
  lemma PassHashHead(t: string, b: string, pat: string, rep: string)
    requires t != [] && pat != [] && pat[0] == '#' && '#' !in t[1..]
    requires !(|pat| <= |t + b| && (t + b)[..|pat|] == pat)
    ensures ReplaceAll(t + b, pat, rep) == t + ReplaceAll(b, pat, rep)
  {
    ReplaceKeepsFirst(t + b, pat, rep);
    PassAfterHead(t, b, pat, rep);
    ConsTail(t, ReplaceAll(b, pat, rep));
  }

  /** Replacement passes over a placeholder of another name. */
  lemma TokenPassesOther(m: string, n: string, b: string, rep: string)
    requires PlainName(m) && PlainName(n) && m != n
    ensures ReplaceAll(Token(m) + b, Token(n), rep) == Token(m) + ReplaceAll(b, Token(n), rep)
  {
    TokenPrefixUnique(n, m, b);
    TokenHashFirst(m);
    assert Token(n)[0] == '#';
    PassHashHead(Token(m), b, Token(n), rep);
  }

  /** The names found in such a text are its placeholders', in order. */
  lemma {:induction false} LayoutNames(head: string, parts: seq<Part>)
    requires Unquoted(head, parts)
    ensures FindAll(Layout(head, parts, map[]), 0) == Names(parts)
    decreases |parts|
  {
    if parts == [] {
      FindAllSkips(head, 0, |head|);
    } else {
      var p := parts[0];
      var tail := Layout(p.after, parts[1..], map[]);
      assert Unquoted(p.after, parts[1..]) by {
        assert forall k :: 0 <= k < |parts[1..]| ==> parts[1..][k] == parts[k + 1];
      }
      LayoutNames(p.after, parts[1..]);
      PlaceholderAfter(head, p.name, tail);
      assert Names(parts) == [p.name] + Names(parts[1..]);
    }
  }

  /** A '#'-free stretch in front of a text adds no occurrence of a string
      whose second character is '#', unless the text starts with the rest
      of that string. */
  lemma HashFreePrefix(a: string, b: string, t: string)
    requires |t| > 1 && t[1] == '#' && '#' !in a
    requires !(|t| - 1 <= |b| && b[..|t| - 1] == t[1..])
    requires !Occurs(b, t)
    ensures !Occurs(a + b, t)
  {
    var s := a + b;
    forall j: nat ensures !OccursAt(s, t, j) {
      if j + |t| <= |s| {
        var w := s[j..j + |t|];
        if j + 1 < |a| {
          assert w[1] == a[j + 1];
        } else if j + 1 == |a| {
          assert w[1..] == b[..|t| - 1];
        } else {
          assert w == b[j - |a|..j - |a| + |t|];
          assert !OccursAt(b, t, j - |a|);
        }
      }
    }
  }

  /** A placeholder followed by something other than a double quote is not
      the inside of a quoted placeholder. */
  lemma NotQuotedHere(m: string, tail: string, n: string)
    requires PlainName(m) && PlainName(n) && |tail| > 0 && tail[0] != '"'
    ensures !(|Token(n)| < |Token(m) + tail| && (Token(m) + tail)[..|Token(n)| + 1] == Token(n) + "\"")
  {
    var v := Token(m) + tail;
    TokenPrefixUnique(n, m, tail);
    if |Token(n)| < |v| {
      var w := v[..|Token(n)| + 1];
      assert w[..|Token(n)|] == v[..|Token(n)|];
      assert w[|Token(n)|] == v[|Token(n)|];
      assert (Token(n) + "\"")[..|Token(n)|] == Token(n);
      assert (Token(n) + "\"")[|Token(n)|] == '"';
      assert n == m ==> v[|Token(n)|] == tail[0];
    }
  }

  /** A placeholder does not start a quoted one, nor do the characters
      after its '#'. */
  lemma NoQuotedFromToken(m: string, tail: string, n: string)
    requires PlainName(m) && PlainName(n) && |tail| > 0 && tail[0] != '#'
    requires !Occurs(tail, Quote(Token(n)))
    ensures !Occurs(Token(m) + tail, Quote(Token(n)))
  {
    var qt := Quote(Token(n));
    var tm := Token(m);
    var v := tm + tail;
    assert qt[0] == '"' && qt[1] == '#';
    TokenHashFirst(m);
    assert qt[1..][0] == '#' != tail[0];
    HashFreePrefix(tm[1..], tail, qt);
    assert v[1..] == tm[1..] + tail;
    forall j: nat ensures !OccursAt(v, qt, j) {
      if j == 0 {
        assert |qt| <= |v| ==> v[..|qt|][0] == '#';
      } else {
        OccursAtTail(v, qt, j - 1);
      }
    }
  }

  /** A placeholder followed by something other than a double quote or a
      '#', after a stretch without '#', is not quoted. */
  lemma NoQuotedAroundToken(head: string, m: string, tail: string, n: string)
    requires '#' !in head && PlainName(m) && PlainName(n)
    requires |tail| > 0 && tail[0] != '"' && tail[0] != '#'
    requires !Occurs(tail, Quote(Token(n)))
    ensures !Occurs(head + Token(m) + tail, Quote(Token(n)))
  {
    var qt := Quote(Token(n));
    NoQuotedFromToken(m, tail, n);
    NotQuotedHere(m, tail, n);
    assert qt[1] == '#' && qt[1..] == Token(n) + "\"";
    HashFreePrefix(head, Token(m) + tail, qt);
    assert head + (Token(m) + tail) == head + Token(m) + tail;
  }

  /** In such a text, filled or not, no placeholder is in double quotes. */
  lemma {:induction false} NoQuotedInLayout(head: string, parts: seq<Part>, fill: map<string, string>, n: string)
    requires Unquoted(head, parts) && HashFree(fill) && PlainName(n)
    ensures !Occurs(Layout(head, parts, fill), Quote(Token(n)))
    decreases |parts|
  {
    var qt := Quote(Token(n));
    assert qt[1] == '#';
    if parts == [] {
      NoHashNoOccurrence(head, qt, 1);
    } else {
      var p := parts[0];
      var m := p.name;
      var tail := Layout(p.after, parts[1..], fill);
      assert Unquoted(p.after, parts[1..]) by {
        assert forall k :: 0 <= k < |parts[1..]| ==> parts[1..][k] == parts[k + 1];
      }
      NoQuotedInLayout(p.after, parts[1..], fill, n);
      assert tail[0] == p.after[0];
      if m in fill {
        assert qt[1..][0] == '#' != tail[0];
        HashFreePrefix(head + fill[m], tail, qt);
      } else {
        NoQuotedAroundToken(head, m, tail, n);
      }
    }
  }

  /** Replacement passes over a placeholder of another name after a
      stretch without '#'. */
  lemma ReplaceOtherSlot(head: string, m: string, tail: string, n: string, rep: string)
    requires '#' !in head && PlainName(m) && PlainName(n) && m != n
    ensures ReplaceAll(head + Token(m) + tail, Token(n), rep) ==
      head + Token(m) + ReplaceAll(tail, Token(n), rep)
  {
    var rest := ReplaceAll(tail, Token(n), rep);
    PassThrough(head, Token(m) + tail, Token(n), rep);
    TokenPassesOther(m, n, tail, rep);
    assert head + (Token(m) + tail) == head + Token(m) + tail;
    assert head + (Token(m) + rest) == head + Token(m) + rest;
  }

  /** Replacement leaves a '#'-free stretch alone, fills the slot if it is
      the placeholder replaced, and carries on after it. */
  lemma ReplaceSlot(head: string, m: string, fill: map<string, string>, tail: string, n: string, rep: string)
    requires '#' !in head && PlainName(m) && PlainName(n) && HashFree(fill)
    ensures ReplaceAll(head + Slot(m, fill) + tail, Token(n), rep) ==
      head + Slot(m, if n in fill then fill else fill[n := rep]) + ReplaceAll(tail, Token(n), rep)
  {
    var g := if n in fill then fill else fill[n := rep];
    var x := Slot(m, fill);
    if m in fill {
      assert Slot(m, g) == x;
      PassThrough(head + x, tail, Token(n), rep);
    } else if m == n {
      assert x == Token(n) && Slot(m, g) == rep;
      ReplaceSplice(head, Token(n), tail, rep, 0);
    } else {
      assert x == Token(m) && Slot(m, g) == x;
      ReplaceOtherSlot(head, m, tail, n, rep);
    }
  }

  /** Replacing a placeholder in such a text fills its slots and nothing
      else; a name already filled has no placeholder left. */
  lemma {:induction false} ReplaceLayout(head: string, parts: seq<Part>, fill: map<string, string>, n: string, rep: string)
    requires Unquoted(head, parts) && HashFree(fill) && PlainName(n)
    ensures ReplaceAll(Layout(head, parts, fill), Token(n), rep) ==
      Layout(head, parts, if n in fill then fill else fill[n := rep])
    decreases |parts|
  {
    if parts == [] {
      NoHashNoOccurrence(head, Token(n), 0);
      ReplaceAllAbsent(head, Token(n), rep);
    } else {
      var p := parts[0];
      assert Unquoted(p.after, parts[1..]) by {
        assert forall k :: 0 <= k < |parts[1..]| ==> parts[1..][k] == parts[k + 1];
      }
      ReplaceLayout(p.after, parts[1..], fill, n, rep);
      ReplaceSlot(head, p.name, fill, Layout(p.after, parts[1..], fill), n, rep);
    }
  }

  /** One pass over such a text puts the bare value in every slot of the name. */
  lemma StepLayout(head: string, parts: seq<Part>, fill: map<string, string>, n: string, args: map<string, Value>)
    requires Unquoted(head, parts) && HashFree(fill) && PlainName(n) && n in args
    ensures Step(Layout(head, parts, fill), n, args) ==
      Ok(Layout(head, parts, if n in fill then fill else fill[n := Bare(args[n])]))
  {
    NoQuotedInLayout(head, parts, fill, n);
    ReplaceLayout(head, parts, fill, n, Bare(args[n]));
  }

  /** Passes for present names fill their slots, one name after another. */
  lemma {:induction false} FoldLayout(head: string, parts: seq<Part>, S: set<string>, names: seq<string>, args: map<string, Value>)
    requires Unquoted(head, parts)
    requires forall n :: n in S ==> n in args && '#' !in Bare(args[n])
    requires forall k :: 0 <= k < |names| ==> PlainName(names[k]) && names[k] in args && '#' !in Bare(args[names[k]])
    ensures Fold(Layout(head, parts, BareMap(S, args)), names, args) ==
      Ok(Layout(head, parts, BareMap(S + (set n | n in names), args)))
    decreases |names|
  {
    var fill := BareMap(S, args);
    if names == [] {
      assert S + (set n | n in names) == S;
    } else {
      var n := names[0];
      StepLayout(head, parts, fill, n, args);
      BareMapAdd(S, n, args);
      var rest := names[1..];
      assert forall k :: 0 <= k < |rest| ==> rest[k] == names[k + 1];
      FoldLayout(head, parts, S + {n}, rest, args);
      ElementsCons(S, names);
    }
  }

  lemma BareMapAdd(S: set<string>, n: string, args: map<string, Value>)
    requires n in args
    ensures (if n in BareMap(S, args) then BareMap(S, args) else BareMap(S, args)[n := Bare(args[n])]) ==
      BareMap(S + {n}, args)
  {
  }

  lemma ElementsCons(S: set<string>, names: seq<string>)
    requires names != []
    ensures S + {names[0]} + (set x | x in names[1..]) == S + (set x | x in names)
  {
    forall x | x in names ensures x in S + {names[0]} + (set y | y in names[1..]) {
      var k :| 0 <= k < |names| && names[k] == x;
      if k > 0 {
        assert names[1..][k - 1] == x;
      }
    }
  }

  /** A text made of plain, '#'-free stretches and unquoted placeholders,
      with any number of names, fails with the first placeholder, in text
      order, whose name is missing from the arguments. */
  lemma ResolveUnquotedMissing(head: string, parts: seq<Part>, args: map<string, Value>, k: nat)
    requires Unquoted(head, parts)
    requires k < |parts| && parts[k].name !in args
    requires forall j :: 0 <= j < k ==> parts[j].name in args
    ensures Resolve(Layout(head, parts, map[]), args) == Err(KeyError(parts[k].name))
  {
    LayoutNames(head, parts);
    FoldFirstMissing(Layout(head, parts, map[]), Names(parts), args, k);
  }

  /** In such a text with every name present, each placeholder, however
      often its name is used, is replaced by the bare rendering of its
      value, and the rest of the text is left as it is. */
  lemma ResolveUnquoted(head: string, parts: seq<Part>, args: map<string, Value>)
    requires Unquoted(head, parts)
    requires forall k :: 0 <= k < |parts| ==> parts[k].name in args && '#' !in Bare(args[parts[k].name])
    ensures Resolve(Layout(head, parts, map[]), args) ==
      Ok(Layout(head, parts, BareMap(set p | p in parts :: p.name, args)))
  {
    var names := Names(parts);
    LayoutNames(head, parts);
    assert BareMap({}, args) == map[];
    assert forall k :: 0 <= k < |names| ==> PlainName(names[k]) && names[k] in args && '#' !in Bare(args[names[k]]);
    FoldLayout(head, parts, {}, names, args);
    NamesSet(parts);
    assert {} + (set n | n in names) == set n | n in names;
  }

  lemma NamesSet(parts: seq<Part>)
    ensures (set n | n in Names(parts)) == set p | p in parts :: p.name
  {
    var names := Names(parts);
    forall x | x in names ensures exists p :: p in parts && p.name == x {
      var k :| 0 <= k < |names| && names[k] == x;
      assert parts[k] in parts;
    }
    forall p | p in parts ensures p.name in names {
      var k :| 0 <= k < |parts| && parts[k] == p;
      assert names[k] == p.name;
    }
  }

  /** Two names, the first used twice, in a JSON object: every
      placeholder gets the bare value of its own name. */
  lemma TwoNamesExample(x: string, y: string, vx: Value, vy: Value)
    requires PlainName(x) && PlainName(y) && x != y
    requires '#' !in Bare(vx) && '#' !in Bare(vy)
    ensures Resolve("{\"a\": " + Token(x) + (", \"b\": " + Token(y) + (", \"c\": " + Token(x) + "}")),
                    map[x := vx, y := vy]) ==
      Ok("{\"a\": " + Bare(vx) + (", \"b\": " + Bare(vy) + (", \"c\": " + Bare(vx) + "}")))
  {
    var args := map[x := vx, y := vy];
    var head, p0, p1, p2 := "{\"a\": ", Part(x, ", \"b\": "), Part(y, ", \"c\": "), Part(x, "}");
    var parts := [p0, p1, p2];
    assert Unquoted(head, parts);
    ResolveUnquoted(head, parts, args);
    var fill := BareMap(set p | p in parts :: p.name, args);
    FilledSlot(parts, args, 0);
    FilledSlot(parts, args, 1);
    ExampleLayout(head, p0, p1, p2, map[], Token(x), Token(y));
    ExampleLayout(head, p0, p1, p2, fill, Bare(vx), Bare(vy));
  }

  /** After resolution every slot holds its name's bare value. */
  lemma FilledSlot(parts: seq<Part>, args: map<string, Value>, k: nat)
    requires k < |parts| && parts[k].name in args
    ensures Slot(parts[k].name, BareMap(set p | p in parts :: p.name, args)) == Bare(args[parts[k].name])
  {
    assert parts[k] in parts;
  }

  /** A three-part layout with the first name in the first and last slot. */
  lemma ExampleLayout(head: string, p0: Part, p1: Part, p2: Part, fill: map<string, string>, a: string, b: string)
    requires Slot(p0.name, fill) == a && Slot(p1.name, fill) == b && Slot(p2.name, fill) == a
    ensures Layout(head, [p0, p1, p2], fill) == head + a + (p0.after + b + (p1.after + a + p2.after))
  {
    var parts := [p0, p1, p2];
    assert parts[1..] == [p1, p2] && [p1, p2][1..] == [p2] && [p2][1..] == [];
    assert Layout(p2.after, [], fill) == p2.after;
    assert Layout(p1.after, [p2], fill) == p1.after + a + p2.after;
    assert Layout(p0.after, [p1, p2], fill) == p0.after + b + (p1.after + a + p2.after);
  }

  // ---------------------------------------------------------------------
  // Lemmas: texts whose placeholders are all quoted
  // ---------------------------------------------------------------------

  /** The quoted placeholder of `name`, or the value `fill` already puts in
      its place, quotes included. */
  function QSlot(name: string, fill: map<string, string>): (r: string)
  {
    if name in fill then fill[name] else Quote(Token(name))
  }

  /** `head`, then each part's quoted placeholder (or its fill) and its text. */
  function QLayout(head: string, parts: seq<Part>, fill: map<string, string>): (r: string)
    decreases |parts|
  {
    if parts == [] then head
    else head + QSlot(parts[0].name, fill) + QLayout(parts[0].after, parts[1..], fill)
  }

  /** No '#' outside the quoted placeholders. */
  predicate QuotedParts(head: string, parts: seq<Part>)
  {
    '#' !in head &&
    forall k :: 0 <= k < |parts| ==> PlainName(parts[k].name) && '#' !in parts[k].after
  }

  /** The quoted renderings of the names in S. */
  function QuoteMap(S: set<string>, args: map<string, Value>): (r: map<string, string>)
  {
    map n | n in S && n in args :: InQuotes(args[n])
  }

  lemma QuotedTail(head: string, parts: seq<Part>)
    requires QuotedParts(head, parts) && parts != []
    ensures QuotedParts(parts[0].after, parts[1..])
  {
    assert forall k :: 0 <= k < |parts[1..]| ==> parts[1..][k] == parts[k + 1];
  }

  /** A quoted placeholder after a stretch without '#' is the first one found. */
  lemma QuotedSlotNames(head: string, name: string, tail: string)
    requires '#' !in head && PlainName(name)
    ensures FindAll(head + Quote(Token(name)) + tail, 0) == [name] + FindAll(tail, 0)
  {
    assert head + Quote(Token(name)) + tail == (head + "\"") + Token(name) + ("\"" + tail);
    PlaceholderAfter(head + "\"", name, "\"" + tail);
    SkipStretch("\"", tail);
  }

  /** The names found in such a text are its placeholders', in order. */
  lemma {:induction false} QLayoutNames(head: string, parts: seq<Part>)
    requires QuotedParts(head, parts)
    ensures FindAll(QLayout(head, parts, map[]), 0) == Names(parts)
    decreases |parts|
  {
    if parts == [] {
      FindAllSkips(head, 0, |head|);
    } else {
      var p := parts[0];
      QuotedTail(head, parts);
      QLayoutNames(p.after, parts[1..]);
      QuotedSlotNames(head, p.name, QLayout(p.after, parts[1..], map[]));
      assert Names(parts) == [p.name] + Names(parts[1..]);
    }
  }

  /** Such a text, filled or not, does not start with '#'. */
  lemma {:induction false} QLayoutStart(head: string, parts: seq<Part>, fill: map<string, string>)
    requires QuotedParts(head, parts) && HashFree(fill)
    ensures |QLayout(head, parts, fill)| > 0 ==> QLayout(head, parts, fill)[0] != '#'
    decreases |parts|
  {
    if parts != [] {
      var x := QSlot(parts[0].name, fill);
      var tail := QLayout(parts[0].after, parts[1..], fill);
      QuotedTail(head, parts);
      QLayoutStart(parts[0].after, parts[1..], fill);
      var s := head + x + tail;
      if |head| > 0 {
        assert s[0] == head[0];
      } else if |x| > 0 {
        assert s[0] == x[0] && x[0] in x;
      } else {
        assert s == tail;
      }
    }
  }

  /** Replacement keeps a prefix in which no occurrence starts. */
  lemma {:induction false} ReplaceKeepsPrefix(a: string, b: string, pat: string, rep: string)
    requires pat != []
    requires forall j :: 0 <= j < |a| ==> !OccursAt(a + b, pat, j)
    ensures ReplaceAll(a + b, pat, rep) == a + ReplaceAll(b, pat, rep)
    decreases |a|
  {
    if a == [] {
      assert a + b == b;
    } else {
      var s := a + b;
      assert !OccursAt(s, pat, 0);
      ReplaceKeepsFirst(s, pat, rep);
      assert s[1..] == a[1..] + b;
      forall j | 0 <= j < |a[1..]| ensures !OccursAt(a[1..] + b, pat, j) {
        OccursAtTail(s, pat, j);
      }
      ReplaceKeepsPrefix(a[1..], b, pat, rep);
      ConsTail(a, ReplaceAll(b, pat, rep));
    }
  }

  /** A text has no occurrence if its tail has none and none starts before it. */
  lemma NoOccurSplit(a: string, b: string, t: string)
    requires forall j :: 0 <= j < |a| ==> !OccursAt(a + b, t, j)
    requires !Occurs(b, t)
    ensures !Occurs(a + b, t)
  {
    forall j: nat ensures !OccursAt(a + b, t, j) {
      if j >= |a| && j + |t| <= |a + b| {
        assert (a + b)[j..j + |t|] == b[j - |a|..j - |a| + |t|];
        assert !OccursAt(b, t, j - |a|);
      }
    }
  }

  lemma OccursAfter(a: string, b: string, t: string, j: nat)
    requires OccursAt(b, t, j)
    ensures OccursAt(a + b, t, |a| + j)
  {
    assert (a + b)[|a| + j..|a| + j + |t|] == b[j..j + |t|];
  }

  /** A string whose '#' is its first or second character starts nowhere in
      a stretch without '#' that is not followed by a '#'. */
  lemma HashFreeNoStart(a: string, b: string, t: string, h: nat)
    requires h <= 1 && h < |t| && t[h] == '#' && '#' !in a
    requires |b| > 0 ==> b[0] != '#'
    ensures forall j :: 0 <= j < |a| ==> !OccursAt(a + b, t, j)
  {
    var s := a + b;
    forall j | 0 <= j < |a| ensures !OccursAt(s, t, j) {
      if j + |t| <= |s| {
        assert s[j..j + |t|][h] == s[j + h];
        if j + h < |a| {
          assert s[j + h] == a[j + h];
        } else {
          assert s[j + h] == b[0];
        }
      }
    }
  }

  /** The only '#' of a quoted placeholder and the character after it. */
  lemma QuotedSlotHash(head: string, m: string, tail: string, k: nat)
    requires '#' !in head && PlainName(m) && (|tail| > 0 ==> tail[0] != '#')
    requires k <= |head + Quote(Token(m))| && k < |head + Quote(Token(m)) + tail| && k != |head| + 1
    ensures (head + Quote(Token(m)) + tail)[k] != '#'
  {
    var s := head + Quote(Token(m)) + tail;
    var tm := Token(m);
    if k < |head| {
      assert s[k] == head[k];
    } else if k == |head| {
      assert s[k] == '"';
    } else if k < |head| + 1 + |tm| {
      TokenHashFirst(m);
      assert s[k] == tm[1..][k - |head| - 2];
    } else if k == |head| + 1 + |tm| {
      assert s[k] == '"';
    } else {
      assert s[k] == tail[0];
    }
  }

  /** At the '#' of a quoted placeholder of another name, the placeholder
      of n does not start. */
  lemma QuotedSlotOtherToken(head: string, m: string, tail: string, n: string)
    requires PlainName(m) && PlainName(n) && m != n
    ensures !OccursAt(head + Quote(Token(m)) + tail, Token(n), |head| + 1)
  {
    var s := head + Quote(Token(m)) + tail;
    var tn := Token(n);
    TokenPrefixUnique(n, m, "\"" + tail);
    assert s[|head| + 1..] == Token(m) + ("\"" + tail);
    if |head| + 1 + |tn| <= |s| {
      assert s[|head| + 1..|head| + 1 + |tn|] == s[|head| + 1..][..|tn|];
    }
  }

  /** An occurrence of t holds an occurrence of each piece of t. */
  lemma OccursInside(s: string, t: string, j: nat, h: nat, u: string)
    requires h + |u| <= |t| && t[h..h + |u|] == u
    ensures OccursAt(s, t, j) ==> OccursAt(s, u, j + h)
  {
    if j + |t| <= |s| {
      var w := s[j..j + |t|];
      var x, y := s[j + h..j + h + |u|], w[h..h + |u|];
      forall i | 0 <= i < |u| ensures x[i] == y[i] {
        assert w[h + i] == s[j + h + i];
      }
      assert x == y;
    }
  }

  /** At one position: either it is the '#' of the other placeholder, or
      the character where t would need its '#' is not one. */
  lemma QuotedSlotNoStartAt(head: string, m: string, tail: string, t: string, h: nat, n: string, j: nat)
    requires '#' !in head && PlainName(m) && PlainName(n) && m != n
    requires |tail| > 0 ==> tail[0] != '#'
    requires h <= 1 && h + |Token(n)| <= |t| && t[h..h + |Token(n)|] == Token(n)
    requires j < |head + Quote(Token(m))|
    ensures !OccursAt(head + Quote(Token(m)) + tail, t, j)
  {
    var s := head + Quote(Token(m)) + tail;
    var tn := Token(n);
    if j + |t| <= |s| {
      var k := j + h;
      if k == |head| + 1 {
        QuotedSlotOtherToken(head, m, tail, n);
        OccursInside(s, t, j, h, tn);
      } else {
        assert t[h] == tn[0] == '#';
        assert s[j..j + |t|][h] == s[k];
        QuotedSlotHash(head, m, tail, k);
      }
    }
  }

  /** A quoted placeholder of another name starts no occurrence of the
      placeholder of n, quoted or not, before the rest of the text. */
  lemma QuotedSlotNoStart(head: string, m: string, tail: string, t: string, h: nat, n: string)
    requires '#' !in head && PlainName(m) && PlainName(n) && m != n
    requires |tail| > 0 ==> tail[0] != '#'
    requires (h == 0 && t == Token(n)) || (h == 1 && t == Quote(Token(n)))
    ensures forall j :: 0 <= j < |head + Quote(Token(m))| ==> !OccursAt(head + Quote(Token(m)) + tail, t, j)
  {
    assert h + |Token(n)| <= |t| && t[h..h + |Token(n)|] == Token(n);
    forall j | 0 <= j < |head + Quote(Token(m))| ensures !OccursAt(head + Quote(Token(m)) + tail, t, j) {
      QuotedSlotNoStartAt(head, m, tail, t, h, n, j);
    }
  }

  /** A filled slot, or a slot of another name, starts no occurrence of the
      placeholder of n, quoted or not. */
  lemma SlotNoStart(head: string, m: string, fill: map<string, string>, tail: string, t: string, h: nat, n: string)
    requires '#' !in head && PlainName(m) && PlainName(n) && HashFree(fill)
    requires m in fill || m != n
    requires |tail| > 0 ==> tail[0] != '#'
    requires (h == 0 && t == Token(n)) || (h == 1 && t == Quote(Token(n)))
    ensures forall j :: 0 <= j < |head + QSlot(m, fill)| ==> !OccursAt(head + QSlot(m, fill) + tail, t, j)
  {
    if m in fill {
      assert '#' !in head + fill[m];
      HashFreeNoStart(head + fill[m], tail, t, h);
    } else {
      QuotedSlotNoStart(head, m, tail, t, h, n);
    }
  }

  /** Replacing a quoted placeholder in such a text fills its slots, quotes
      included, and nothing else; a name already filled has none left. */
  lemma {:induction false} ReplaceQLayout(head: string, parts: seq<Part>, fill: map<string, string>, n: string, rep: string)
    requires QuotedParts(head, parts) && HashFree(fill) && PlainName(n)
    ensures ReplaceAll(QLayout(head, parts, fill), Quote(Token(n)), rep) ==
      QLayout(head, parts, if n in fill then fill else fill[n := rep])
    decreases |parts|
  {
    var qt := Quote(Token(n));
    var g := if n in fill then fill else fill[n := rep];
    assert qt[0] == '"' && qt[1] == '#';
    if parts == [] {
      NoHashNoOccurrence(head, qt, 1);
      ReplaceAllAbsent(head, qt, rep);
    } else {
      var p := parts[0];
      var tail := QLayout(p.after, parts[1..], fill);
      QuotedTail(head, parts);
      ReplaceQLayout(p.after, parts[1..], fill, n, rep);
      if p.name !in fill && p.name == n {
        ReplaceSplice(head, qt, tail, rep, 1);
        assert QSlot(p.name, g) == rep;
      } else {
        QLayoutStart(p.after, parts[1..], fill);
        SlotNoStart(head, p.name, fill, tail, qt, 1, n);
        ReplaceKeepsPrefix(head + QSlot(p.name, fill), tail, qt, rep);
        assert QSlot(p.name, g) == QSlot(p.name, fill);
      }
    }
  }

  /** Once a name is filled, neither its placeholder nor its quoted
      placeholder occurs in such a text. */
  lemma {:induction false} QLayoutAbsent(head: string, parts: seq<Part>, fill: map<string, string>, n: string, t: string, h: nat)
    requires QuotedParts(head, parts) && HashFree(fill) && PlainName(n) && n in fill
    requires (h == 0 && t == Token(n)) || (h == 1 && t == Quote(Token(n)))
    ensures !Occurs(QLayout(head, parts, fill), t)
    decreases |parts|
  {
    assert t[h] == '#';
    if parts == [] {
      NoHashNoOccurrence(head, t, h);
    } else {
      var p := parts[0];
      var tail := QLayout(p.after, parts[1..], fill);
      QuotedTail(head, parts);
      QLayoutAbsent(p.after, parts[1..], fill, n, t, h);
      QLayoutStart(p.after, parts[1..], fill);
      SlotNoStart(head, p.name, fill, tail, t, h, n);
      NoOccurSplit(head + QSlot(p.name, fill), tail, t);
    }
  }

  /** A name with a slot not yet filled still has its quoted placeholder. */
  lemma {:induction false} QLayoutOccurs(head: string, parts: seq<Part>, fill: map<string, string>, n: string)
    requires n !in fill && n in Names(parts)
    ensures Occurs(QLayout(head, parts, fill), Quote(Token(n)))
    decreases |parts|
  {
    var qt := Quote(Token(n));
    var p := parts[0];
    var tail := QLayout(p.after, parts[1..], fill);
    if p.name == n {
      var s := head + qt + tail;
      assert s[|head|..|head| + |qt|] == qt;
      assert OccursAt(s, qt, |head|);
    } else {
      assert Names(parts) == [p.name] + Names(parts[1..]);
      QLayoutOccurs(p.after, parts[1..], fill, n);
      var j: nat :| OccursAt(tail, qt, j);
      OccursAfter(head + QSlot(p.name, fill), tail, qt, j);
    }
  }

  /** One pass over such a text puts the quoted rendering of the value in
      every slot of its name; a later pass for the same name finds no
      placeholder, quoted or not, and changes nothing. */
  lemma StepQLayout(head: string, parts: seq<Part>, fill: map<string, string>, n: string, args: map<string, Value>)
    requires QuotedParts(head, parts) && HashFree(fill) && PlainName(n) && n in args && n in Names(parts)
    ensures Step(QLayout(head, parts, fill), n, args) ==
      Ok(QLayout(head, parts, if n in fill then fill else fill[n := InQuotes(args[n])]))
  {
    var s := QLayout(head, parts, fill);
    if n in fill {
      QLayoutAbsent(head, parts, fill, n, Quote(Token(n)), 1);
      QLayoutAbsent(head, parts, fill, n, Token(n), 0);
      ReplaceAllAbsent(s, Token(n), Bare(args[n]));
    } else {
      QLayoutOccurs(head, parts, fill, n);
      ReplaceQLayout(head, parts, fill, n, InQuotes(args[n]));
    }
  }

  lemma QuoteMapAdd(S: set<string>, n: string, args: map<string, Value>)
    requires n in args
    ensures (if n in QuoteMap(S, args) then QuoteMap(S, args) else QuoteMap(S, args)[n := InQuotes(args[n])]) ==
      QuoteMap(S + {n}, args)
  {
  }

  /** Passes for present names fill their quoted slots, one name after
      another; repeated names change nothing the second time. */
  lemma {:induction false} FoldQLayout(head: string, parts: seq<Part>, S: set<string>, names: seq<string>, args: map<string, Value>)
    requires QuotedParts(head, parts)
    requires forall n :: n in S ==> n in args && '#' !in InQuotes(args[n])
    requires forall k :: 0 <= k < |names| ==>
      PlainName(names[k]) && names[k] in Names(parts) && names[k] in args && '#' !in InQuotes(args[names[k]])
    ensures Fold(QLayout(head, parts, QuoteMap(S, args)), names, args) ==
      Ok(QLayout(head, parts, QuoteMap(S + (set n | n in names), args)))
    decreases |names|
  {
    var fill := QuoteMap(S, args);
    if names == [] {
      assert S + (set n | n in names) == S;
    } else {
      var n := names[0];
      StepQLayout(head, parts, fill, n, args);
      QuoteMapAdd(S, n, args);
      var rest := names[1..];
      assert forall k :: 0 <= k < |rest| ==> rest[k] == names[k + 1];
      FoldQLayout(head, parts, S + {n}, rest, args);
      ElementsCons(S, names);
    }
  }

  /** A text made of '#'-free stretches and quoted placeholders, with any
      number of names, fails with the first placeholder, in text order,
      whose name is missing from the arguments. */
  lemma ResolveQuotedMissing(head: string, parts: seq<Part>, args: map<string, Value>, k: nat)
    requires QuotedParts(head, parts)
    requires k < |parts| && parts[k].name !in args
    requires forall j :: 0 <= j < k ==> parts[j].name in args
    ensures Resolve(QLayout(head, parts, map[]), args) == Err(KeyError(parts[k].name))
  {
    QLayoutNames(head, parts);
    FoldFirstMissing(QLayout(head, parts, map[]), Names(parts), args, k);
  }

  /** In such a text with every name present, each quoted placeholder,
      however often its name is used, is replaced together with its quotes
      by the quoted rendering of its value: a string comes back between
      quotes, anything else bare. The rest of the text is left as it is. */
  lemma ResolveQuoted(head: string, parts: seq<Part>, args: map<string, Value>)
    requires QuotedParts(head, parts)
    requires forall k :: 0 <= k < |parts| ==> parts[k].name in args && '#' !in InQuotes(args[parts[k].name])
    ensures Resolve(QLayout(head, parts, map[]), args) ==
      Ok(QLayout(head, parts, QuoteMap(set p | p in parts :: p.name, args)))
  {
    var names := Names(parts);
    QLayoutNames(head, parts);
    assert QuoteMap({}, args) == map[];
    assert forall k :: 0 <= k < |names| ==> names[k] in names;
    FoldQLayout(head, parts, {}, names, args);
    NamesSet(parts);
    assert {} + (set n | n in names) == set n | n in names;
  }

  /** After resolution every quoted slot holds its name's quoted rendering. */
  lemma FilledQSlot(parts: seq<Part>, args: map<string, Value>, k: nat)
    requires k < |parts| && parts[k].name in args
    ensures QSlot(parts[k].name, QuoteMap(set p | p in parts :: p.name, args)) == InQuotes(args[parts[k].name])
  {
    assert parts[k] in parts;
  }

  /** A three-part quoted layout with the first name in the first two slots. */
  lemma QExampleLayout(head: string, p0: Part, p1: Part, p2: Part, fill: map<string, string>, a: string, b: string)
    requires QSlot(p0.name, fill) == a && QSlot(p1.name, fill) == a && QSlot(p2.name, fill) == b
    ensures QLayout(head, [p0, p1, p2], fill) == head + a + (p0.after + a + (p1.after + b + p2.after))
  {
    var parts := [p0, p1, p2];
    assert parts[1..] == [p1, p2] && [p1, p2][1..] == [p2] && [p2][1..] == [];
    assert QLayout(p2.after, [], fill) == p2.after;
    assert QLayout(p1.after, [p2], fill) == p1.after + b + p2.after;
    assert QLayout(p0.after, [p1, p2], fill) == p0.after + a + (p1.after + b + p2.after);
  }

  /** Two names, the first quoted twice, in a JSON object: every quoted
      placeholder, quotes included, gets the quoted rendering of its own
      name, so a string stays a string and a number or boolean is bare. */
  lemma QuotedExample(x: string, y: string, vx: Value, vy: Value)
    requires PlainName(x) && PlainName(y) && x != y
    requires '#' !in InQuotes(vx) && '#' !in InQuotes(vy)
    ensures Resolve("{\"in\": " + Quote(Token(x)) + (", \"out\": " + Quote(Token(x)) + (", \"p\": " + Quote(Token(y)) + "}")),
                    map[x := vx, y := vy]) ==
      Ok("{\"in\": " + InQuotes(vx) + (", \"out\": " + InQuotes(vx) + (", \"p\": " + InQuotes(vy) + "}")))
  {
    var args := map[x := vx, y := vy];
    var head, p0, p1, p2 := "{\"in\": ", Part(x, ", \"out\": "), Part(x, ", \"p\": "), Part(y, "}");
    var parts := [p0, p1, p2];
    QuotedExampleParts(x, y, vx, vy);
    ResolveQuoted(head, parts, args);
    var fill := QuoteMap(set p | p in parts :: p.name, args);
    FilledQSlot(parts, args, 0);
    FilledQSlot(parts, args, 2);
    QExampleLayout(head, p0, p1, p2, map[], Quote(Token(x)), Quote(Token(y)));
    QExampleLayout(head, p0, p1, p2, fill, InQuotes(vx), InQuotes(vy));
  }

  lemma QuotedExampleParts(x: string, y: string, vx: Value, vy: Value)
    requires PlainName(x) && PlainName(y) && x != y
    requires '#' !in InQuotes(vx) && '#' !in InQuotes(vy)
    ensures var parts := [Part(x, ", \"out\": "), Part(x, ", \"p\": "), Part(y, "}")];
      QuotedParts("{\"in\": ", parts) &&
      forall k :: 0 <= k < |parts| ==>
        (parts[k].name in map[x := vx, y := vy] && '#' !in InQuotes(map[x := vx, y := vy][parts[k].name]))
  {
  }
}
