/** A model of the PTB runner script: each token of a PTB script has its
    environment-variable references (`$NAME` and `${NAME}`) expanded, and the
    expanded tokens are appended, after the pass-through arguments, to the
    command line `sui client ptb`.

    The environment is an immutable map, the tokenizer's output is an input,
    and the external tool's return code is a parameter. */
module RunPtb {

  datatype Option<T> = None | Some(value: T)

  /** The outcome of an expansion: a value, or the abort (exit status 1)
      that names the environment variable that was not set. */
  datatype Expansion<T> = Ok(value: T) | MissingVariable(name: string)

  type Env = map<string, string>

  /* ---------------------------------------------------------------------
     The pattern `\$(\w+)|\$\{([^}]+)\}`
     --------------------------------------------------------------------- */

  /** A word character, `\w`, restricted to ASCII. */
  predicate IsWordChar(c: char) {
    ('a' <= c <= 'z') || ('A' <= c <= 'Z') || ('0' <= c <= '9') || c == '_'
  }

  predicate AllWordChars(s: string) {
    forall i | 0 <= i < |s| :: IsWordChar(s[i])
  }

  predicate NoCloseBrace(s: string) {
    forall i | 0 <= i < |s| :: s[i] != '}'
  }

  /** A piece of a token: one character copied literally, or a reference
      matched by the pattern, bare (`$NAME`) or braced (`${NAME}`). */
  datatype Segment = Lit(c: char) | Ref(name: string, braced: bool)

  /** The text of the token that a segment stands for. */
  function Text(seg: Segment): string {
    match seg
    case Lit(c) => [c]
    case Ref(name, braced) => if braced then "${" + name + "}" else "$" + name
  }

  function Source(segs: seq<Segment>): string {
    if segs == [] then "" else Text(segs[0]) + Source(segs[1..])
  }

  /** The names referenced by the segments, in left-to-right order. */
  function Refs(segs: seq<Segment>): seq<string> {
    if segs == [] then []
    else (if segs[0].Ref? then [segs[0].name] else []) + Refs(segs[1..])
  }

  /** The pattern matches at the start of `s`, and `seg` is that match:
      `$` and a greedy, hence maximal, run of word characters, or `${`, one or
      more characters other than `}`, and the closing `}`. */
  predicate IsMatch(s: string, seg: Segment) {
    && seg.Ref?
    && |seg.name| > 0
    && |Text(seg)| <= |s|
    && s[..|Text(seg)|] == Text(seg)
    && if seg.braced then NoCloseBrace(seg.name)
       else AllWordChars(seg.name) && (|Text(seg)| == |s| || !IsWordChar(s[|Text(seg)|]))
  }

  /** The two alternatives never match at the same place, and each has at
      most one match, so the pattern's match at a position is unique. */
  lemma MatchIsUnique(s: string, a: Segment, b: Segment)
    requires IsMatch(s, a) && IsMatch(s, b)
    ensures a == b
  {
    var ta, tb := Text(a), Text(b);
    assert s[0] == ta[0] == '$' && s[0] == tb[0];
    assert s[1] == ta[1] == tb[1];
    if a.braced != b.braced {
      assert false;
    } else if a.braced {
      if |a.name| != |b.name| {
        var short := if |a.name| < |b.name| then a else b;
        var long := if |a.name| < |b.name| then b else a;
        var k := |short.name| + 2;
        MatchCharAt(s, short, k);
        MatchCharAt(s, long, k);
        assert false;
      }
      assert ta == s[..|ta|] == tb;
      assert a.name == ta[2..|ta| - 1] == tb[2..|tb| - 1] == b.name;
    } else {
      if |a.name| != |b.name| {
        var short := if |a.name| < |b.name| then a else b;
        var long := if |a.name| < |b.name| then b else a;
        var k := |short.name| + 1;
        MatchCharAt(s, long, k);
        assert false;
      }
      assert ta == s[..|ta|] == tb;
      assert a.name == ta[1..] == tb[1..] == b.name;
    }
  }

  /** Length of the longest run of word characters at the start of `s`. */
  function WordRun(s: string): (n: nat)
    ensures n <= |s|
    ensures AllWordChars(s[..n])
    ensures n == |s| || !IsWordChar(s[n])
  {
    if s == [] || !IsWordChar(s[0]) then 0 else 1 + WordRun(s[1..])
  }

  /** Index of the first `}` in `s`, if there is one. */
  function CloseBrace(s: string): (r: Option<nat>)
    ensures r.Some? ==> r.value < |s| && s[r.value] == '}' && NoCloseBrace(s[..r.value])
    ensures r.None? ==> NoCloseBrace(s)
  {
    if s == [] then None
    else if s[0] == '}' then Some(0)
    else match CloseBrace(s[1..])
      case None => None
      case Some(k) => Some(k + 1)
  }

  lemma MatchCharAt(s: string, seg: Segment, k: nat)
    requires IsMatch(s, seg) && k < |Text(seg)|
    ensures s[k] == Text(seg)[k]
  {
    assert s[..|Text(seg)|][k] == s[k];
  }

  /** A match starts with `$`, then `{` or the name's first character. */
  lemma MatchShape(s: string, seg: Segment)
    requires IsMatch(s, seg)
    ensures |s| >= 2 && s[0] == '$'
    ensures s[1] == if seg.braced then '{' else seg.name[0]
    ensures seg.braced ==> |s| >= |seg.name| + 3 && s[2] == seg.name[0] && s[|seg.name| + 2] == '}'
  {
    var t := Text(seg);
    assert s[0] == t[0] && s[1] == t[1];
    if seg.braced {
      assert s[2] == t[2] && s[|seg.name| + 2] == t[|seg.name| + 2];
    }
  }

  /** The match of the pattern at the start of `s`: the bare form is tried
      first, then the braced one. */
  function MatchAt(s: string): (r: Option<Segment>)
    ensures r.Some? ==> IsMatch(s, r.value)
    ensures r.None? ==> forall seg :: !IsMatch(s, seg)
  {
    if |s| < 2 || s[0] != '$' then
      NoMatchWithoutDollar(s);
      None
    else if IsWordChar(s[1]) then
      var n := WordRun(s[1..]);
      BareMatch(s, n);
      Some(Ref(s[1..1 + n], false))
    else if s[1] != '{' then
      NoMatchOnOtherChar(s);
      None
    else match CloseBrace(s[2..])
      case None =>
        NoMatchWithoutCloseBrace(s);
        None
      case Some(k) =>
        if k == 0 then
          NoMatchOnEmptyBraces(s);
          None
        else
          BracedMatch(s, k);
          Some(Ref(s[2..2 + k], true))
  }

  lemma BareMatch(s: string, n: nat)
    requires |s| >= 2 && s[0] == '$' && IsWordChar(s[1])
    requires n == WordRun(s[1..])
    ensures IsMatch(s, Ref(s[1..1 + n], false))
  {
    var seg := Ref(s[1..1 + n], false);
    assert Text(seg) == s[..1 + n];
    assert seg.name == s[1..][..n];
    assert 1 + n < |s| ==> s[1 + n] == s[1..][n];
  }

  lemma BracedMatch(s: string, k: nat)
    requires |s| >= 2 && s[0] == '$' && s[1] == '{'
    requires CloseBrace(s[2..]) == Some(k) && k > 0
    ensures IsMatch(s, Ref(s[2..2 + k], true))
  {
    var seg := Ref(s[2..2 + k], true);
    assert seg.name == s[2..][..k];
    assert s[2 + k] == s[2..][k];
    assert Text(seg) == s[..3 + k];
  }

  lemma NoMatchWithoutDollar(s: string)
    requires |s| < 2 || s[0] != '$'
    ensures forall seg :: !IsMatch(s, seg)
  {
    forall seg | IsMatch(s, seg) ensures false {
      MatchShape(s, seg);
    }
  }

  lemma NoMatchOnOtherChar(s: string)
    requires |s| >= 2 && !IsWordChar(s[1]) && s[1] != '{'
    ensures forall seg :: !IsMatch(s, seg)
  {
    forall seg | IsMatch(s, seg) ensures false {
      MatchShape(s, seg);
    }
  }

  lemma NoMatchWithoutCloseBrace(s: string)
    requires |s| >= 2 && s[1] == '{' && NoCloseBrace(s[2..])
    ensures forall seg :: !IsMatch(s, seg)
  {
    forall seg | IsMatch(s, seg) ensures false {
      MatchShape(s, seg);
    }
  }

  lemma NoMatchOnEmptyBraces(s: string)
    requires |s| >= 3 && s[1] == '{' && s[2] == '}'
    ensures forall seg :: !IsMatch(s, seg)
  {
    forall seg | IsMatch(s, seg) ensures false {
      MatchShape(s, seg);
    }
  }

  /* ---------------------------------------------------------------------
     expand_env: `ENV_VAR_PATTERN.sub(replace, token)`
     --------------------------------------------------------------------- */

  /** The token split, left to right, into the pattern's matches and the
      characters between them; nothing is lost or added. */
  function Scan(s: string): (r: seq<Segment>)
    ensures Source(r) == s
    decreases |s|
  {
    if s == [] then []
    else match MatchAt(s)
      case Some(seg) =>
        var rest := Scan(s[|Text(seg)|..]);
        assert Source([seg] + rest) == Text(seg) + Source(rest);
        [seg] + rest
      case None =>
        var rest := Scan(s[1..]);
        assert Source([Lit(s[0])] + rest) == [s[0]] + Source(rest);
        [Lit(s[0])] + rest
  }

  /** The replacement callback applied to each match in turn: a missing
      name aborts at once, otherwise the value is inserted as it is. */
  function Substitute(env: Env, segs: seq<Segment>): Expansion<string> {
    if segs == [] then Ok("")
    else if segs[0].Ref? && segs[0].name !in env then MissingVariable(segs[0].name)
    else match Substitute(env, segs[1..])
      case MissingVariable(n) => MissingVariable(n)
      case Ok(t) => Ok((if segs[0].Ref? then env[segs[0].name] else [segs[0].c]) + t)
  }

  /** What a segment becomes once the name it references is set: its
      character, or the variable's value as it is. */
  function Replacement(env: Env, seg: Segment): string
    requires seg.Ref? ==> seg.name in env
  {
    if seg.Ref? then env[seg.name] else [seg.c]
  }

  /** The replacements of the segments, concatenated in order. */
  function Render(env: Env, segs: seq<Segment>): string
    requires forall n | n in Refs(segs) :: n in env
  {
    if segs == [] then ""
    else
      assert Refs(segs) == (if segs[0].Ref? then [segs[0].name] else []) + Refs(segs[1..]);
      Replacement(env, segs[0]) + Render(env, segs[1..])
  }

  /** `expand_env(token)` with `os.environ` given as `env`: it succeeds
      exactly when every name written in the token is set, and then every
      reference is replaced by its value as it is; otherwise it aborts
      naming the first unset name. */
  function Expand(env: Env, token: string): (r: Expansion<string>)
    ensures r.Ok? <==> forall n | n in Refs(Scan(token)) :: n in env
    ensures r.Ok? ==> r.value == Render(env, Scan(token))
    ensures r.MissingVariable? ==> IsFirstMissing(env, Refs(Scan(token)), r.name)
  {
    var segs := Scan(token);
    SubstituteOkIff(env, segs);
    var r := Substitute(env, segs);
    if r.Ok? then
      SubstituteRenders(env, segs);
      r
    else
      SubstituteMissingIsFirst(env, segs, r.name);
      r
  }

  /* Scanning, stated against the pattern. */

  /** Where the pattern matches, that match becomes the next segment. */
  lemma ScanMatch(s: string, seg: Segment)
    requires IsMatch(s, seg)
    ensures Scan(s) == [seg] + Scan(s[|Text(seg)|..])
  {
    MatchIsUnique(s, MatchAt(s).value, seg);
  }

  /** Where the pattern does not match, one character is copied through. */
  lemma ScanNoMatch(s: string)
    requires s != []
    requires forall seg :: !IsMatch(s, seg)
    ensures Scan(s) == [Lit(s[0])] + Scan(s[1..])
  {
  }

  /** A `$` is copied literally when it ends the token, when it is followed
      by neither a word character nor `{`, by `{}`, or by a `{` that is
      never closed. */
  lemma DollarWithoutMatch(rest: string)
    requires || rest == []
             || (!IsWordChar(rest[0]) && rest[0] != '{')
             || (|rest| >= 2 && rest[0] == '{' && rest[1] == '}')
             || (rest[0] == '{' && NoCloseBrace(rest))
    ensures forall seg :: !IsMatch("$" + rest, seg)
  {
    var s := "$" + rest;
    if rest == [] {
    } else if !IsWordChar(rest[0]) && rest[0] != '{' {
      forall seg | IsMatch(s, seg) ensures false {
        MatchShape(s, seg);
      }
    } else if |rest| >= 2 && rest[0] == '{' && rest[1] == '}' {
      NoMatchOnEmptyBraces(s);
    } else {
      assert s[2..] == rest[1..];
      NoMatchWithoutCloseBrace(s);
    }
  }

  /* Substitution, stated against the referenced names. */

  /** `n` is the first name in `names` that `env` does not define. */
  predicate IsFirstMissing(env: Env, names: seq<string>, n: string) {
    exists i | 0 <= i < |names| ::
      && names[i] == n
      && n !in env
      && forall j | 0 <= j < i :: names[j] in env
  }

  /** The two environments give every name in `names` the same value, or
      leave it undefined in both. */
  predicate AgreeOn(env1: Env, env2: Env, names: seq<string>) {
    forall n | n in names :: (n in env1 <==> n in env2) && (n in env1 ==> env1[n] == env2[n])
  }

  lemma {:induction false} SubstituteOkIff(env: Env, segs: seq<Segment>)
    ensures Substitute(env, segs).Ok? <==> forall n | n in Refs(segs) :: n in env
  {
    if segs != [] {
      SubstituteOkIff(env, segs[1..]);
      assert Refs(segs) == (if segs[0].Ref? then [segs[0].name] else []) + Refs(segs[1..]);
    }
  }

  /** When every referenced name is set, substitution gives the
      replacements of the segments, concatenated in order. */
  lemma {:induction false} SubstituteRenders(env: Env, segs: seq<Segment>)
    requires forall n | n in Refs(segs) :: n in env
    ensures Substitute(env, segs) == Ok(Render(env, segs))
  {
    if segs != [] {
      assert Refs(segs) == (if segs[0].Ref? then [segs[0].name] else []) + Refs(segs[1..]);
      SubstituteRenders(env, segs[1..]);
    }
  }

  /** The first missing name of a list is its head when the head is
      missing, and otherwise the first missing name of its tail. */
  lemma FirstMissingCons(env: Env, m: string, tail: seq<string>, n: string)
    ensures IsFirstMissing(env, [m] + tail, n) <==>
      if m !in env then n == m else IsFirstMissing(env, tail, n)
  {
    var names := [m] + tail;
    if m !in env {
      if n == m {
        assert names[0] == n;
      }
      if IsFirstMissing(env, names, n) {
        var i :| 0 <= i < |names| && names[i] == n && n !in env
                 && forall j | 0 <= j < i :: names[j] in env;
        assert names[0] == m;
      }
    } else {
      if IsFirstMissing(env, tail, n) {
        var i :| 0 <= i < |tail| && tail[i] == n && n !in env
                 && forall j | 0 <= j < i :: tail[j] in env;
        assert names[i + 1] == n;
        forall j | 0 <= j < i + 1 ensures names[j] in env {
          if j > 0 { assert names[j] == tail[j - 1]; }
        }
      }
      if IsFirstMissing(env, names, n) {
        var i :| 0 <= i < |names| && names[i] == n && n !in env
                 && forall j | 0 <= j < i :: names[j] in env;
        assert tail[i - 1] == n;
        forall j | 0 <= j < i - 1 ensures tail[j] in env {
          assert tail[j] == names[j + 1];
        }
      }
    }
  }

  lemma {:induction false} SubstituteMissingIsFirst(env: Env, segs: seq<Segment>, n: string)
    ensures Substitute(env, segs) == MissingVariable(n) <==> IsFirstMissing(env, Refs(segs), n)
  {
    if segs != [] {
      SubstituteMissingIsFirst(env, segs[1..], n);
      if segs[0].Ref? {
        assert Refs(segs) == [segs[0].name] + Refs(segs[1..]);
        FirstMissingCons(env, segs[0].name, Refs(segs[1..]), n);
      } else {
        assert Refs(segs) == Refs(segs[1..]);
      }
    }
  }

  lemma {:induction false} SubstituteLocal(env1: Env, env2: Env, segs: seq<Segment>)
    requires AgreeOn(env1, env2, Refs(segs))
    ensures Substitute(env1, segs) == Substitute(env2, segs)
  {
    if segs != [] {
      assert Refs(segs) == (if segs[0].Ref? then [segs[0].name] else []) + Refs(segs[1..]);
      SubstituteLocal(env1, env2, segs[1..]);
    }
  }

  /** Substituting after a first segment: the segment's replacement (its
      character, or the variable's value as it is) comes first. */
  lemma SubstituteCons(env: Env, seg: Segment, segs: seq<Segment>)
    requires seg.Ref? ==> seg.name in env
    ensures Substitute(env, [seg] + segs) ==
      match Substitute(env, segs)
      case MissingVariable(n) => MissingVariable(n)
      case Ok(t) => Ok((if seg.Ref? then env[seg.name] else [seg.c]) + t)
  {
    assert ([seg] + segs)[1..] == segs;
  }

  /* Properties of expand_env. */

  /** A token without `$` is returned unchanged. */
  lemma {:induction false} ExpandWithoutDollar(env: Env, token: string)
    requires '$' !in token
    ensures Expand(env, token) == Ok(token)
  {
    if token != [] {
      forall seg | IsMatch(token, seg) ensures false {
        MatchShape(token, seg);
      }
      ScanNoMatch(token);
      ExpandWithoutDollar(env, token[1..]);
      SubstituteCons(env, Lit(token[0]), Scan(token[1..]));
      assert [token[0]] + token[1..] == token;
    }
  }

  /** `$NAME` takes the longest run of word characters: it is replaced by
      the value of NAME as it is, and the text after it is expanded on its
      own; an unset NAME aborts naming it. */
  lemma ExpandBare(env: Env, name: string, rest: string)
    requires name != [] && AllWordChars(name)
    requires rest == [] || !IsWordChar(rest[0])
    ensures name !in env ==> Expand(env, "$" + name + rest) == MissingVariable(name)
    ensures name in env ==> (Expand(env, "$" + name + rest) ==
      match Expand(env, rest)
      case MissingVariable(n) => MissingVariable(n)
      case Ok(t) => Ok(env[name] + t))
  {
    var s := "$" + name + rest;
    var seg := Ref(name, false);
    assert s[..|Text(seg)|] == Text(seg);
    assert |Text(seg)| < |s| ==> s[|Text(seg)|] == rest[0];
    ScanMatch(s, seg);
    assert s[|Text(seg)|..] == rest;
    if name in env {
      SubstituteCons(env, seg, Scan(rest));
    }
  }

  /** `${NAME}` takes everything up to the first `}`: it is replaced by the
      value of NAME as it is; an unset NAME aborts naming it. */
  lemma ExpandBraced(env: Env, name: string, rest: string)
    requires name != [] && NoCloseBrace(name)
    ensures name !in env ==> Expand(env, "${" + name + "}" + rest) == MissingVariable(name)
    ensures name in env ==> (Expand(env, "${" + name + "}" + rest) ==
      match Expand(env, rest)
      case MissingVariable(n) => MissingVariable(n)
      case Ok(t) => Ok(env[name] + t))
  {
    var s := "${" + name + "}" + rest;
    var seg := Ref(name, true);
    assert s[..|Text(seg)|] == Text(seg);
    ScanMatch(s, seg);
    assert s[|Text(seg)|..] == rest;
    if name in env {
      SubstituteCons(env, seg, Scan(rest));
    }
  }

  /** A `$` that starts no match (trailing, `${}`, an unclosed `${`, or
      followed by any other non-word character) is kept literally. */
  lemma ExpandLiteralDollar(env: Env, rest: string)
    requires || rest == []
             || (!IsWordChar(rest[0]) && rest[0] != '{')
             || (|rest| >= 2 && rest[0] == '{' && rest[1] == '}')
             || (rest[0] == '{' && NoCloseBrace(rest))
    ensures Expand(env, "$" + rest) ==
      match Expand(env, rest)
      case MissingVariable(n) => MissingVariable(n)
      case Ok(t) => Ok("$" + t)
  {
    var s := "$" + rest;
    DollarWithoutMatch(rest);
    ScanNoMatch(s);
    assert s[1..] == rest;
    SubstituteCons(env, Lit('$'), Scan(rest));
  }

  /** A character other than `$` is kept literally, in front of the
      expansion of the rest. */
  lemma ExpandLiteralChar(env: Env, c: char, rest: string)
    requires c != '$'
    ensures Expand(env, [c] + rest) ==
      match Expand(env, rest)
      case MissingVariable(n) => MissingVariable(n)
      case Ok(t) => Ok([c] + t)
  {
    var s := [c] + rest;
    NoMatchWithoutDollar(s);
    ScanNoMatch(s);
    assert s[1..] == rest;
    SubstituteCons(env, Lit(c), Scan(rest));
  }

  /** An abort names the first unset variable in left-to-right order. */
  lemma ExpandMissingIsFirst(env: Env, token: string, n: string)
    ensures Expand(env, token) == MissingVariable(n) <==> IsFirstMissing(env, Refs(Scan(token)), n)
  {
    SubstituteMissingIsFirst(env, Scan(token), n);
  }

  /** Only the names written in the token are looked up: values are not
      scanned again, so names that occur only inside values never matter. */
  lemma ExpandLooksUpOnlyTokenNames(env1: Env, env2: Env, token: string)
    requires AgreeOn(env1, env2, Refs(Scan(token)))
    ensures Expand(env1, token) == Expand(env2, token)
  {
    SubstituteLocal(env1, env2, Scan(token));
  }

  /** A token that is one reference to a set variable becomes exactly the
      variable's value, whatever that value contains. */
  lemma ExpandLoneReference(env: Env, name: string)
    requires name != [] && AllWordChars(name) && name in env
    ensures Expand(env, "$" + name) == Ok(env[name])
  {
    ExpandBare(env, name, "");
    ExpandWithoutDollar(env, "");
    assert "$" + name + "" == "$" + name;
    assert env[name] + "" == env[name];
  }

  /** The same for a lone braced reference `${NAME}`. */
  lemma ExpandLoneBracedReference(env: Env, name: string)
    requires name != [] && NoCloseBrace(name) && name in env
    ensures Expand(env, "${" + name + "}") == Ok(env[name])
  {
    ExpandBraced(env, name, "");
    ExpandWithoutDollar(env, "");
    assert "${" + name + "}" + "" == "${" + name + "}";
    assert env[name] + "" == env[name];
  }

  /** `$FOO-x` looks up FOO, the longest run of word characters, and keeps
      `-x` as it is. */
  lemma FooDashExample(env: Env, token: string)
    requires token == "$FOO-x"
    requires "FOO" in env
    ensures Expand(env, token) == Ok(env["FOO"] + "-x")
  {
    assert AllWordChars("FOO") by { assert IsWordChar('F') && IsWordChar('O'); }
    assert token == "$" + "FOO" + "-x";
    ExpandBare(env, "FOO", "-x");
    ExpandWithoutDollar(env, "-x");
  }

  /** A value that itself reads like a reference to an unset variable is
      inserted literally and does not abort. */
  lemma ValueIsNotRescanned()
    ensures Expand(map["A" := "$B"], "$A") == Ok("$B")
  {
    assert IsWordChar('A');
    ExpandLoneReference(map["A" := "$B"], "A");
    assert "$" + "A" == "$A";
  }

  /* ---------------------------------------------------------------------
     main: expansion of the token list, the empty check, the command line
     --------------------------------------------------------------------- */

  /** `[expand_env(tok) for tok in tokens]`: every token in order, the
      first failing token aborting the whole list. */
  function ExpandTokens(env: Env, tokens: seq<string>): (r: Expansion<seq<string>>)
    ensures r.Ok? <==> forall i | 0 <= i < |tokens| :: Expand(env, tokens[i]).Ok?
    ensures r.Ok? ==> |r.value| == |tokens|
    ensures r.Ok? ==> forall i | 0 <= i < |tokens| :: Expand(env, tokens[i]) == Ok(r.value[i])
    ensures r.MissingVariable? ==>
      exists i | 0 <= i < |tokens| ::
        && Expand(env, tokens[i]) == MissingVariable(r.name)
        && forall j | 0 <= j < i :: Expand(env, tokens[j]).Ok?
  {
    if tokens == [] then Ok([])
    else match Expand(env, tokens[0])
      case MissingVariable(n) => MissingVariable(n)
      case Ok(t) =>
        match ExpandTokens(env, tokens[1..])
        case MissingVariable(n) =>
          FirstFailureInTail(env, tokens, n);
          MissingVariable(n)
        case Ok(ts) =>
          ExpandedInCons(env, tokens, t, ts);
          Ok([t] + ts)
  }

  /** Expansions of the head and of the tail give the expansions of the
      whole list, index by index. */
  lemma ExpandedInCons(env: Env, tokens: seq<string>, t: string, ts: seq<string>)
    requires tokens != [] && Expand(env, tokens[0]) == Ok(t)
    requires |ts| == |tokens| - 1
    requires forall i | 0 <= i < |ts| :: Expand(env, tokens[1..][i]) == Ok(ts[i])
    ensures forall i | 0 <= i < |tokens| :: Expand(env, tokens[i]) == Ok(([t] + ts)[i])
  {
    forall i | 0 < i < |tokens| ensures Expand(env, tokens[i]) == Ok(([t] + ts)[i]) {
      assert tokens[i] == tokens[1..][i - 1];
    }
  }

  /** A failure at index `i` of the tail is a failure at index `i + 1` of
      the list, when the head expands. */
  lemma FirstFailureInTail(env: Env, tokens: seq<string>, n: string)
    requires tokens != [] && Expand(env, tokens[0]).Ok?
    requires exists i | 0 <= i < |tokens| - 1 ::
      && Expand(env, tokens[1..][i]) == MissingVariable(n)
      && forall j | 0 <= j < i :: Expand(env, tokens[1..][j]).Ok?
    ensures exists i | 0 <= i < |tokens| ::
      && Expand(env, tokens[i]) == MissingVariable(n)
      && forall j | 0 <= j < i :: Expand(env, tokens[j]).Ok?
  {
    var tail := tokens[1..];
    var i :| 0 <= i < |tail| && Expand(env, tail[i]) == MissingVariable(n)
             && forall j | 0 <= j < i :: Expand(env, tail[j]).Ok?;
    assert tokens[i + 1] == tail[i];
    forall j | 0 <= j < i + 1 ensures Expand(env, tokens[j]).Ok? {
      if j > 0 { assert tokens[j] == tail[j - 1]; }
    }
  }

  /** Why the run stops with status 1 before the tool is launched. */
  datatype AbortReason = UnsetVariable(name: string) | NoCommands

  /** What `main` does once the script is tokenized. */
  datatype Run = Abort(reason: AbortReason) | Execute(cmd: seq<string>)

  const ToolPrefix: seq<string> := ["sui", "client", "ptb"]

  /** The token list is expanded, an empty list stops the run, and the
      command is the tool prefix, the pass-through arguments as they are,
      then the expanded tokens. */
  function Plan(env: Env, extra: seq<string>, tokens: seq<string>): (r: Run)
    ensures r == Abort(NoCommands) <==> tokens == []
    ensures r.Execute? <==> tokens != [] && forall i | 0 <= i < |tokens| :: Expand(env, tokens[i]).Ok?
    ensures r.Execute? ==>
      && |r.cmd| == 3 + |extra| + |tokens|
      && r.cmd[..3] == ["sui", "client", "ptb"]
      && r.cmd[3..3 + |extra|] == extra
      && forall i | 0 <= i < |tokens| :: Expand(env, tokens[i]) == Ok(r.cmd[3 + |extra| + i])
    ensures r.Abort? && r.reason.UnsetVariable? ==>
      exists i | 0 <= i < |tokens| ::
        && Expand(env, tokens[i]) == MissingVariable(r.reason.name)
        && forall j | 0 <= j < i :: Expand(env, tokens[j]).Ok?
  {
    match ExpandTokens(env, tokens)
    case MissingVariable(n) => Abort(UnsetVariable(n))
    case Ok(expanded) =>
      if expanded == [] then Abort(NoCommands)
      else
        var cmd := ToolPrefix + extra + expanded;
        assert forall i | 0 <= i < |tokens| :: cmd[3 + |extra| + i] == expanded[i];
        Execute(cmd)
  }

  /** The script's exit status, given the tool's return code when it runs:
      an unset variable exits with 1 through `SystemExit(1)`, an empty list
      makes `main` return 1, and otherwise `check=True` raises for a
      non-zero code, which `main` returns, and a zero code returns 0. */
  function MainStatus(env: Env, extra: seq<string>, tokens: seq<string>, returnCode: int): (status: int)
    ensures Plan(env, extra, tokens).Abort? ==> status == 1
    ensures Plan(env, extra, tokens).Execute? ==> status == returnCode
    ensures status == 0 <==> tokens != [] && returnCode == 0
                             && forall i | 0 <= i < |tokens| :: Expand(env, tokens[i]).Ok?
  {
    match Plan(env, extra, tokens)
    case Abort(_) => 1
    case Execute(_) =>
      if returnCode != 0 then returnCode else 0
  }

  /** A script such as `move $SRC $DST`, with SRC and DST set, runs
      `sui client ptb`, the pass-through arguments, then the verb and the
      two values. */
  lemma MoveExample(env: Env, extra: seq<string>, verb: string, src: string, dst: string)
    requires '$' !in verb
    requires src != [] && AllWordChars(src) && src in env
    requires dst != [] && AllWordChars(dst) && dst in env
    ensures Plan(env, extra, [verb, "$" + src, "$" + dst])
         == Execute(ToolPrefix + extra + [verb, env[src], env[dst]])
  {
    var tokens := [verb, "$" + src, "$" + dst];
    var expanded := [verb, env[src], env[dst]];
    ExpandWithoutDollar(env, verb);
    ExpandLoneReference(env, src);
    ExpandLoneReference(env, dst);
    var r := Plan(env, extra, tokens);
    assert r.cmd[3 + |extra|..] == expanded;
    assert r.cmd == r.cmd[..3] + r.cmd[3..3 + |extra|] + r.cmd[3 + |extra|..];
  }
}
