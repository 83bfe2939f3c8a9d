/**
 * The two regular-expression operations the plugin calls, for a pattern without the
 * global or sticky flag: `RegExp.prototype.test` and `String.prototype.replace` with
 * a string replacement (sections 22.2.7.2 and 22.1.3.19 of ECMA-262).
 */
module RegExp {
  import opened Wrappers
  import opened Patterns

  /** A match: `s[start..end]`. */
  datatype Span = Span(start: nat, end: nat)

  /** What trying the pattern at each start position `0 .. |s|` gives. */
  function Attempts(pat: Pattern, s: string): (r: seq<Option<nat>>)
    ensures |r| == |s| + 1
    ensures forall q | 0 <= q <= |s| :: r[q] == MatchAt(pat, s, q)
  {
    seq(|s| + 1, q requires 0 <= q <= |s| => MatchAt(pat, s, q))
  }

  /** The engine tries at `p`, `p + 1`, …: the first start that matches wins. */
  function FirstHit(attempts: seq<Option<nat>>, p: nat): (r: Option<Span>)
    requires p <= |attempts|
    ensures r.Some? ==> p <= r.value.start < |attempts| && attempts[r.value.start] == Some(r.value.end)
    ensures r.Some? ==> forall q | p <= q < r.value.start :: attempts[q].None?
    ensures r.None? ==> forall q | p <= q < |attempts| :: attempts[q].None?
    decreases |attempts| - p
  {
    if p == |attempts| then None
    else match attempts[p]
      case Some(e) => Some(Span(p, e))
      case None => FirstHit(attempts, p + 1)
  }

  /**
   * RegExpBuiltinExec with `lastIndex` 0: the match at the first position from
   * which the pattern matches, or none when it matches at no position.
   */
  function Exec(pat: Pattern, s: string): (r: Option<Span>)
    ensures r.Some? ==> r.value.start <= |s| && MatchAt(pat, s, r.value.start) == Some(r.value.end)
    ensures r.Some? ==> forall q | 0 <= q < r.value.start :: MatchAt(pat, s, q).None?
    ensures r.None? ==> forall q | 0 <= q <= |s| :: MatchAt(pat, s, q).None?
  {
    var attempts := Attempts(pat, s);
    var r := FirstHit(attempts, 0);
    if r.Some? then
      assert forall q | 0 <= q < r.value.start :: attempts[q] == MatchAt(pat, s, q);
      r
    else
      assert forall q | 0 <= q <= |s| :: attempts[q] == MatchAt(pat, s, q);
      r
  }

  /** The match found ends after its start, within the text. */
  lemma ExecWithin(pat: Pattern, s: string)
    requires Exec(pat, s).Some?
    ensures Exec(pat, s).value.start < Exec(pat, s).value.end <= |s|
  {
    var m := Exec(pat, s).value;
    assert MatchAt(pat, s, m.start) == Some(m.end);
  }

  /** A pattern that matches at `q` is found, at `q` or further left. */
  lemma ExecStartsNoLaterThan(pat: Pattern, s: string, q: nat)
    requires q <= |s| && MatchAt(pat, s, q).Some?
    ensures Exec(pat, s).Some? && Exec(pat, s).value.start <= q
  {
  }

  /** The pattern matches at no position in front of `p`. */
  predicate NoMatchBefore(pat: Pattern, s: string, p: nat) {
    p <= |s| && forall q | 0 <= q < p :: MatchAt(pat, s, q).None?
  }

  /** A match at `p` with none in front of it is the one found. */
  lemma ExecFindsFirstAt(pat: Pattern, s: string, p: nat, e: nat)
    requires NoMatchBefore(pat, s, p) && MatchAt(pat, s, p) == Some(e)
    ensures Test(pat, s) && Exec(pat, s) == Some(Span(p, e))
  {
    ExecStartsNoLaterThan(pat, s, p);
    var m := Exec(pat, s).value;
    assert MatchAt(pat, s, m.start).Some?;
    assert m.start == p;
    assert m == Span(p, e);
  }

  /** `pattern.test(s)`. */
  function Test(pat: Pattern, s: string): bool {
    Exec(pat, s).Some?
  }

  /** `test` succeeds exactly when the pattern matches from some position of `s`. */
  lemma TestIffSomeMatch(pat: Pattern, s: string)
    ensures Test(pat, s) <==> exists q | 0 <= q <= |s| :: MatchAt(pat, s, q).Some?
  {
    if q :| 0 <= q <= |s| && MatchAt(pat, s, q).Some? {
      ExecStartsNoLaterThan(pat, s, q);
    }
  }

  /**
   * `Exec` finds the leftmost string of the pattern's language in `s` and, among
   * those starting there, the shortest; it finds nothing only when `s` contains no
   * string of the language at all.
   */
  lemma ExecIsLeftmostShortest(pat: Pattern, s: string)
    ensures Exec(pat, s).Some? ==>
      var m := Exec(pat, s).value;
      && m.start < m.end <= |s|
      && InLang(pat, s, m.start, m.end)
      && (forall e | InLang(pat, s, m.start, e) :: m.end <= e)
      && (forall q: nat, e: nat | q < m.start :: !InLang(pat, s, q, e))
    ensures Exec(pat, s).None? ==> forall q: nat, e: nat | q <= |s| :: !InLang(pat, s, q, e)
  {
    if Exec(pat, s).Some? {
      ExecFindsLeftmost(pat, s);
    } else {
      ExecFindsNothing(pat, s);
    }
  }

  lemma ExecFindsLeftmost(pat: Pattern, s: string)
    requires Exec(pat, s).Some?
    ensures var m := Exec(pat, s).value;
      && m.start < m.end <= |s|
      && InLang(pat, s, m.start, m.end)
      && (forall e | InLang(pat, s, m.start, e) :: m.end <= e)
      && (forall q: nat, e: nat | q < m.start :: !InLang(pat, s, q, e))
  {
    var m := Exec(pat, s).value;
    MatchAtIsShortest(pat, s, m.start);
    forall q: nat, e: nat | q < m.start ensures !InLang(pat, s, q, e) {
      NoMatchNoMember(pat, s, q, e);
    }
  }

  lemma ExecFindsNothing(pat: Pattern, s: string)
    requires Exec(pat, s).None?
    ensures forall q: nat, e: nat | q <= |s| :: !InLang(pat, s, q, e)
  {
    forall q: nat, e: nat | q <= |s| ensures !InLang(pat, s, q, e) {
      NoMatchNoMember(pat, s, q, e);
    }
  }

  lemma NoMatchNoMember(pat: Pattern, s: string, q: nat, e: nat)
    requires q <= |s| && MatchAt(pat, s, q).None?
    ensures !InLang(pat, s, q, e)
  {
    if InLang(pat, s, q, e) {
      MatchAtLeast(pat, s, q, e);
    }
  }

  /**
   * GetSubstitution (section 22.1.3.19.1 of ECMA-262) for a pattern without capture
   * groups: `$$`, `$&`, `` $` `` and `$'` are expanded; any other `$` stays as it is.
   */
  function GetSubstitution(template: string, matched: string, before: string, after: string): (r: string)
    ensures '$' !in template ==> r == template
    decreases |template|
  {
    if template == [] then []
    else if template[0] == '$' && |template| >= 2 && template[1] in "$&`'" then
      var expansion :=
        if template[1] == '$' then "$"
        else if template[1] == '&' then matched
        else if template[1] == '`' then before
        else after;
      expansion + GetSubstitution(template[2..], matched, before, after)
    else
      [template[0]] + GetSubstitution(template[1..], matched, before, after)
  }

  /**
   * `s.replace(pattern, replacement)`: the leftmost match is replaced by the
   * substituted replacement; without a match `s` comes back unchanged.
   */
  function Replace(pat: Pattern, s: string, replacement: string): (r: string)
    ensures Exec(pat, s).None? ==> r == s
    ensures Exec(pat, s).Some? && '$' !in replacement ==>
      var m := Exec(pat, s).value;
      r == s[..m.start] + replacement + s[m.end..]
  {
    match Exec(pat, s)
    case None => s
    case Some(m) =>
      s[..m.start] + GetSubstitution(replacement, s[m.start..m.end], s[..m.start], s[m.end..]) + s[m.end..]
  }
}
