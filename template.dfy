/**
 * Route path templates (src/Router.php:289-291): every `{name}` placeholder
 * becomes the capture group `([a-zA-Z0-9_]+)`, the template is anchored at
 * both ends (`^...$` with the D modifier, so `$` is the very end), and the
 * captured values come back in left-to-right order.
 *
 * The regular expression is modelled by a direct matcher with PCRE's
 * preference order: each capture group is greedy and gives characters back
 * only when the rest of the template fails to match.
 */
module PathTemplate {
  import opened Wrappers

  /** One piece of a compiled template: a literal character or a placeholder. */
  datatype Token = Lit(c: char) | Param(name: string)

  /** The character class `[a-zA-Z0-9_]`. */
  predicate IsWordChar(c: char) {
    ('a' <= c <= 'z') || ('A' <= c <= 'Z') || ('0' <= c <= '9') || c == '_'
  }

  /** A string `[a-zA-Z0-9_]+` matches completely: non-empty, word characters only. */
  predicate ValidCapture(v: string) {
    |v| > 0 && forall i :: 0 <= i < |v| ==> IsWordChar(v[i])
  }

  predicate ValidCaptures(caps: seq<string>) {
    forall i :: 0 <= i < |caps| ==> ValidCapture(caps[i])
  }

  /** The length of the longest run of word characters at the start of `s`. */
  function WordRun(s: string): (n: nat)
    ensures n <= |s|
    ensures forall i :: 0 <= i < n ==> IsWordChar(s[i])
    ensures n == |s| || !IsWordChar(s[n])
  {
    if s == [] || !IsWordChar(s[0]) then 0 else 1 + WordRun(s[1..])
  }

  // ---------------------------------------------------------------------
  // Compiling a template: preg_replace('/\{[a-zA-Z0-9_]+\}/', ...)
  // ---------------------------------------------------------------------

  /** The first `n` characters of `t` are `{`, a `[a-zA-Z0-9_]+` name, and `}`. */
  predicate BracedWord(t: string, n: nat) {
    3 <= n <= |t| && t[0] == '{' && t[n - 1] == '}' && ValidCapture(t[1..n - 1])
  }

  /**
   * The length of the placeholder `{name}` that starts `t`, or 0 if `t` does
   * not start with one.
   */
  function PlaceholderAt(t: string): (k: nat)
    ensures k == 0 || BracedWord(t, k)
  {
    if |t| >= 3 && t[0] == '{' then
      var n := WordRun(t[1..]);
      if 0 < n && n + 1 < |t| && t[n + 1] == '}' then n + 2 else 0
    else 0
  }

  /** PlaceholderAt recognises exactly the placeholders: a template that starts with `{name}` of length `n` gets `n`. */
  lemma PlaceholderAtExact(t: string, n: nat)
    ensures BracedWord(t, n) ==> PlaceholderAt(t) == n
  {
    if BracedWord(t, n) {
      var w := WordRun(t[1..]);
      forall i | 0 <= i < n - 2 ensures IsWordChar(t[1..][i]) {
        assert t[1..][i] == t[1..n - 1][i];
      }
      assert t[1..][n - 2] == '}';
      assert w == n - 2;
    }
  }

  /** Scan the template left to right, replacing each placeholder and keeping every other character. */
  function Parse(t: string): (toks: seq<Token>)
    ensures forall i :: 0 <= i < |toks| && toks[i].Param? ==> ValidCapture(toks[i].name)
    decreases |t|
  {
    if t == [] then []
    else
      var k := PlaceholderAt(t);
      if k > 0 then [Param(t[1..k - 1])] + Parse(t[k..])
      else [Lit(t[0])] + Parse(t[1..])
  }

  /** The template text a token sequence stands for. */
  function Render(toks: seq<Token>): string {
    if toks == [] then []
    else match toks[0]
      case Lit(c) => [c] + Render(toks[1..])
      case Param(n) => "{" + n + "}" + Render(toks[1..])
  }

  /** Compiling loses nothing: the tokens spell the template back. */
  lemma {:induction false} RenderParse(t: string)
    ensures Render(Parse(t)) == t
    decreases |t|
  {
    if t != [] {
      var k := PlaceholderAt(t);
      if k > 0 {
        var rest := Parse(t[k..]);
        var toks := [Param(t[1..k - 1])] + rest;
        assert toks[0] == Param(t[1..k - 1]) && toks[1..] == rest;
        assert Parse(t) == toks;
        assert Render(toks) == "{" + t[1..k - 1] + "}" + Render(rest);
        RenderParse(t[k..]);
        Braced(t, k);
      } else {
        var rest := Parse(t[1..]);
        var toks := [Lit(t[0])] + rest;
        assert toks[0] == Lit(t[0]) && toks[1..] == rest;
        assert Parse(t) == toks;
        assert Render(toks) == [t[0]] + Render(rest);
        RenderParse(t[1..]);
        assert t == [t[0]] + t[1..];
      }
    }
  }

  /** A template that starts with a placeholder of length `k` is that placeholder's text followed by the rest. */
  lemma Braced(t: string, k: nat)
    requires 3 <= k <= |t| && t[0] == '{' && t[k - 1] == '}'
    ensures t == "{" + t[1..k - 1] + "}" + t[k..]
  {
    assert t[..1] == "{" && t[k - 1..k] == "}";
    assert t == t[..1] + t[1..k - 1] + t[k - 1..k] + t[k..];
  }

  lemma {:induction false} RenderAppend(a: seq<Token>, b: seq<Token>)
    ensures Render(a + b) == Render(a) + Render(b)
    decreases |a|
  {
    if a == [] {
      assert a + b == b;
    } else {
      assert (a + b)[0] == a[0] && (a + b)[1..] == a[1..] + b;
      RenderAppend(a[1..], b);
    }
  }

  /** The tokens spell, in full, a placeholder `{name}`. */
  predicate SpellsPlaceholder(run: seq<Token>) {
    BracedWord(Render(run), |run|)
  }

  /** `toks[i..j]` holds literal characters only. */
  predicate LitRun(toks: seq<Token>, i: nat, j: nat) {
    i <= j <= |toks| && forall k :: i <= k < j ==> toks[k].Lit?
  }

  /**
   * No run of literal tokens left by compiling spells a placeholder: every
   * `{name}` of the template became a capture group.
   */
  lemma {:induction false} ParseLeavesNoBracedLiterals(t: string, i: nat, j: nat)
    requires LitRun(Parse(t), i, j)
    ensures !SpellsPlaceholder(Parse(t)[i..j])
    decreases |t|
  {
    if i == 0 {
      ParseHeadNotBraced(t, j);
      assert !SpellsPlaceholder(Parse(t)[i..j]);
    } else if i < j {
      var skip, rest := ParseTail(t);
      LitRunOfTail(Parse(t), i, j);
      ParseLeavesNoBracedLiterals(t[skip..], i - 1, j - 1);
      assert Parse(t)[i..j] == Parse(t[skip..])[i - 1..j - 1];
      assert !SpellsPlaceholder(Parse(t)[i..j]);
    } else {
      assert Render(Parse(t)[i..j]) == [];
      assert !SpellsPlaceholder(Parse(t)[i..j]);
    }
  }

  /**
   * The tokens after the first one are the compiled rest of the template;
   * the first is a placeholder exactly when the template starts with one.
   */
  lemma ParseTail(t: string) returns (skip: nat, rest: seq<Token>)
    requires t != []
    ensures 1 <= skip <= |t| && rest == Parse(t[skip..]) && Parse(t)[1..] == rest
    ensures Parse(t)[0].Lit? <==> PlaceholderAt(t) == 0
  {
    var k := PlaceholderAt(t);
    skip := if k > 0 then k else 1;
    rest := Parse(t[skip..]);
    if k > 0 {
      assert ([Param(t[1..k - 1])] + rest)[1..] == rest;
    } else {
      assert ([Lit(t[0])] + rest)[1..] == rest;
    }
  }

  /** A run of literal tokens at the start of the compiled template does not spell a placeholder. */
  lemma ParseHeadNotBraced(t: string, j: nat)
    requires LitRun(Parse(t), 0, j)
    ensures !SpellsPlaceholder(Parse(t)[0..j])
  {
    var toks := Parse(t);
    if j > 0 {
      var _, _ := ParseTail(t);
      PlaceholderAtExact(t, j);
      RenderParse(t);
      BracedPrefix(toks, j);
      assert toks[0..j] == toks[..j];
    }
  }

  /** A literal run after the first token is the same run of the tail, one position earlier. */
  lemma LitRunOfTail(toks: seq<Token>, i: nat, j: nat)
    requires 1 <= i && LitRun(toks, i, j)
    ensures LitRun(toks[1..], i - 1, j - 1) && toks[i..j] == toks[1..][i - 1..j - 1]
  {
    forall m | 0 <= m < j - i ensures toks[i..j][m] == toks[1..][i - 1..j - 1][m] {
      assert toks[i..j][m] == toks[i + m];
    }
  }

  /** A braced word spelled by the first `j` tokens is spelled by the start of the whole text. */
  lemma BracedPrefix(toks: seq<Token>, j: nat)
    requires j <= |toks|
    ensures BracedWord(Render(toks[..j]), j) ==> BracedWord(Render(toks), j)
  {
    RenderAppend(toks[..j], toks[j..]);
    assert toks[..j] + toks[j..] == toks;
    BracedWordExtends(Render(toks[..j]), Render(toks[j..]), j);
  }

  lemma BracedWordExtends(a: string, b: string, j: nat)
    ensures BracedWord(a, j) ==> BracedWord(a + b, j)
  {
    if BracedWord(a, j) {
      assert (a + b)[1..j - 1] == a[1..j - 1];
    }
  }

  function ParamCount(toks: seq<Token>): nat {
    if toks == [] then 0
    else (if toks[0].Param? then 1 else 0) + ParamCount(toks[1..])
  }

  /** The concrete path obtained by putting `caps` into the placeholders, in order. */
  function Fill(toks: seq<Token>, caps: seq<string>): string
    requires |caps| == ParamCount(toks)
  {
    if toks == [] then []
    else match toks[0]
      case Lit(c) => [c] + Fill(toks[1..], caps)
      case Param(_) => caps[0] + Fill(toks[1..], caps[1..])
  }

  // ---------------------------------------------------------------------
  // Matching: preg_match("@^...$@D", $uri, $matches) then array_shift
  // ---------------------------------------------------------------------

  /**
   * The captures of the anchored match of `toks` against `s`, or None.
   * Whatever it returns is a valid filling of the template that spells `s`.
   */
  function Match(toks: seq<Token>, s: string): (r: Option<seq<string>>)
    ensures r.Some? ==> |r.value| == ParamCount(toks) && ValidCaptures(r.value) && Fill(toks, r.value) == s
    decreases |toks|, 1, 0
  {
    if toks == [] then (if s == [] then Some([]) else None)
    else match toks[0]
      case Lit(c) => if s != [] && s[0] == c then Match(toks[1..], s[1..]) else None
      case Param(_) => TryLengths(toks[1..], s, WordRun(s))
  }

  /**
   * A greedy capture group followed by `rest`: try the longest candidate
   * first and give back one character at a time.
   */
  function TryLengths(rest: seq<Token>, s: string, k: nat): (r: Option<seq<string>>)
    requires k <= |s| && forall i :: 0 <= i < k ==> IsWordChar(s[i])
    ensures r.Some? ==> |r.value| == 1 + ParamCount(rest) && ValidCaptures(r.value) &&
                        r.value[0] + Fill(rest, r.value[1..]) == s
    decreases |rest| + 1, 0, k
  {
    if k == 0 then None
    else match Match(rest, s[k..])
      case Some(caps) =>
        assert ([s[..k]] + caps)[1..] == caps;
        Some([s[..k]] + caps)
      case None => TryLengths(rest, s, k - 1)
  }

  /** The greedy group's choice: a prefix of `s` of at most `k` characters, with the rest matched after it. */
  lemma {:induction false} TryLengthsChoice(rest: seq<Token>, s: string, k: nat)
    requires k <= |s| && forall i :: 0 <= i < k ==> IsWordChar(s[i])
    requires TryLengths(rest, s, k).Some?
    ensures var caps := TryLengths(rest, s, k).value;
      |caps[0]| <= k && caps[0] == s[..|caps[0]|] && Match(rest, s[|caps[0]|..]) == Some(caps[1..])
    decreases k
  {
    if Match(rest, s[k..]).Some? {
      var caps := Match(rest, s[k..]).value;
      assert TryLengths(rest, s, k).value == [s[..k]] + caps;
      assert ([s[..k]] + caps)[1..] == caps;
    } else {
      TryLengthsChoice(rest, s, k - 1);
    }
  }

  /**
   * The candidates a greedy group tries, longest first: for every longer
   * candidate up to `k`, the rest of the template does not match.
   */
  lemma {:induction false} TryLengthsLongest(rest: seq<Token>, s: string, k: nat, m: nat)
    requires k <= |s| && forall i :: 0 <= i < k ==> IsWordChar(s[i])
    requires TryLengths(rest, s, k).Some? && |TryLengths(rest, s, k).value[0]| < m <= k
    ensures Match(rest, s[m..]).None?
    decreases k
  {
    TryLengthsTop(rest, s, k);
    if m < k {
      assert Match(rest, s[k..]).None?;
      assert TryLengths(rest, s, k) == TryLengths(rest, s, k - 1);
      TryLengthsLongest(rest, s, k - 1, m);
    } else {
      assert |TryLengths(rest, s, k).value[0]| < k;
    }
  }

  /** The longest candidate is taken when the rest matches after it, and skipped otherwise. */
  lemma TryLengthsTop(rest: seq<Token>, s: string, k: nat)
    requires 0 < k <= |s| && forall i :: 0 <= i < k ==> IsWordChar(s[i])
    ensures Match(rest, s[k..]).Some? ==> TryLengths(rest, s, k).Some? && TryLengths(rest, s, k).value[0] == s[..k]
    ensures Match(rest, s[k..]).None? ==> TryLengths(rest, s, k) == TryLengths(rest, s, k - 1)
  {
    if Match(rest, s[k..]).Some? {
      assert TryLengths(rest, s, k).value == [s[..k]] + Match(rest, s[k..]).value;
    }
  }

  /**
   * PCRE's choice among the ways a path can fill a template: the first
   * capture takes the longest run of word characters for which the rest of
   * the template still matches, and the rest is matched the same way.
   */
  lemma MatchGreedy(toks: seq<Token>, s: string)
    requires toks != [] && toks[0].Param? && Match(toks, s).Some?
    ensures var caps := Match(toks, s).value;
      var n := |caps[0]|;
      caps[0] == s[..n] && Match(toks[1..], s[n..]) == Some(caps[1..]) &&
      forall m :: n < m <= |s| && ValidCapture(s[..m]) ==> Match(toks[1..], s[m..]).None?
  {
    var k := WordRun(s);
    assert Match(toks, s) == TryLengths(toks[1..], s, k);
    TryLengthsChoice(toks[1..], s, k);
    var n := |Match(toks, s).value[0]|;
    forall m | n < m <= |s| && ValidCapture(s[..m]) ensures Match(toks[1..], s[m..]).None? {
      forall i | 0 <= i < m ensures IsWordChar(s[i]) {
        assert s[..m][i] == s[i];
      }
      assert m <= k;
      TryLengthsLongest(toks[1..], s, k, m);
    }
  }

  lemma {:induction false} WordRunCovers(v: string, w: string)
    requires forall i :: 0 <= i < |v| ==> IsWordChar(v[i])
    ensures WordRun(v + w) >= |v|
    decreases |v|
  {
    if v != [] {
      assert (v + w)[0] == v[0] && (v + w)[1..] == v[1..] + w;
      WordRunCovers(v[1..], w);
    }
  }

  lemma {:induction false} TryLengthsFinds(rest: seq<Token>, s: string, big: nat, k: nat)
    requires big <= |s| && forall i :: 0 <= i < big ==> IsWordChar(s[i])
    requires 1 <= k <= big && Match(rest, s[k..]).Some?
    ensures TryLengths(rest, s, big).Some?
    decreases big
  {
    var top := Match(rest, s[big..]);
    TryLengthsTop(rest, s, big);
    if top.None? {
      assert big != k;
      TryLengthsFinds(rest, s, big - 1, k);
    }
  }

  /** Every valid filling of the template is matched. */
  lemma {:induction false} MatchComplete(toks: seq<Token>, caps: seq<string>)
    requires |caps| == ParamCount(toks) && ValidCaptures(caps)
    ensures Match(toks, Fill(toks, caps)).Some?
    decreases |toks|
  {
    if toks != [] {
      var s := Fill(toks, caps);
      match toks[0]
      case Lit(c) =>
        MatchComplete(toks[1..], caps);
        assert s[1..] == Fill(toks[1..], caps);
      case Param(_) =>
        var v := caps[0];
        var w := Fill(toks[1..], caps[1..]);
        assert ValidCaptures(caps[1..]) by {
          forall i | 0 <= i < |caps[1..]| ensures ValidCapture(caps[1..][i]) {
            assert caps[1..][i] == caps[i + 1];
          }
        }
        MatchComplete(toks[1..], caps[1..]);
        assert ValidCapture(caps[0]);
        WordRunCovers(v, w);
        assert s == v + w && s[|v|..] == w;
        TryLengthsFinds(toks[1..], s, WordRun(s), |v|);
    }
  }

  /** A path matches a template exactly when it is a valid filling of it. */
  lemma MatchIff(toks: seq<Token>, s: string)
    ensures Match(toks, s).Some? <==>
            exists caps :: |caps| == ParamCount(toks) && ValidCaptures(caps) && Fill(toks, caps) == s
  {
    if exists caps :: |caps| == ParamCount(toks) && ValidCaptures(caps) && Fill(toks, caps) == s {
      var caps :| |caps| == ParamCount(toks) && ValidCaptures(caps) && Fill(toks, caps) == s;
      MatchComplete(toks, caps);
    }
  }

  /**
   * A template is separated when every placeholder is followed by the end
   * or by a literal that is not a word character (the `/` between segments).
   * For these the captures are exactly the values filled in.
   */
  ghost predicate Separated(toks: seq<Token>) {
    forall i :: 0 <= i < |toks| && toks[i].Param? ==>
      i + 1 == |toks| || (toks[i + 1].Lit? && !IsWordChar(toks[i + 1].c))
  }

  lemma {:induction false} WordRunStops(v: string, w: string)
    requires forall i :: 0 <= i < |v| ==> IsWordChar(v[i])
    requires w == [] || !IsWordChar(w[0])
    ensures WordRun(v + w) == |v|
    decreases |v|
  {
    if v != [] {
      assert (v + w)[0] == v[0] && (v + w)[1..] == v[1..] + w;
      WordRunStops(v[1..], w);
    } else {
      assert v + w == w;
    }
  }

  /** On a separated template, matching a filled-in path gives back exactly the values filled in. */
  lemma {:induction false} MatchFill(toks: seq<Token>, caps: seq<string>)
    requires Separated(toks) && |caps| == ParamCount(toks) && ValidCaptures(caps)
    ensures Match(toks, Fill(toks, caps)) == Some(caps)
    decreases |toks|
  {
    if toks != [] {
      var s := Fill(toks, caps);
      assert Separated(toks[1..]) by {
        forall i | 0 <= i < |toks[1..]| && toks[1..][i].Param?
          ensures i + 1 == |toks[1..]| || (toks[1..][i + 1].Lit? && !IsWordChar(toks[1..][i + 1].c))
        {
          assert toks[1..][i] == toks[i + 1];
        }
      }
      match toks[0]
      case Lit(c) =>
        MatchFill(toks[1..], caps);
        assert s[1..] == Fill(toks[1..], caps);
      case Param(_) =>
        var v := caps[0];
        var w := Fill(toks[1..], caps[1..]);
        assert ValidCaptures(caps[1..]) by {
          forall i | 0 <= i < |caps[1..]| ensures ValidCapture(caps[1..][i]) {
            assert caps[1..][i] == caps[i + 1];
          }
        }
        MatchFill(toks[1..], caps[1..]);
        assert ValidCapture(v);
        if toks[1..] != [] {
          assert toks[1] == toks[1..][0];
          assert w[0] == toks[1].c;
        }
        WordRunStops(v, w);
        assert s == v + w && s[|v|..] == w && s[..|v|] == v;
        assert [v] + caps[1..] == caps;
    }
  }

  /**
   * A key without placeholders matches itself (with no captures), so the
   * exact-key fallback of the router never runs for it.
   */
  lemma LiteralKeyMatchesItself(t: string)
    requires ParamCount(Parse(t)) == 0
    ensures Match(Parse(t), t) == Some([])
  {
    FillWithoutParams(Parse(t));
    RenderParse(t);
    MatchComplete(Parse(t), []);
  }

  lemma {:induction false} FillWithoutParams(toks: seq<Token>)
    requires ParamCount(toks) == 0
    ensures Fill(toks, []) == Render(toks)
    decreases |toks|
  {
    if toks != [] {
      FillWithoutParams(toks[1..]);
    }
  }

  /**
   * A key with a placeholder never matches its own text, because `{` is not
   * a word character; a request for that literal text reaches the router's
   * exact-key fallback.
   */
  lemma {:induction false} PlaceholderKeyMissesItself(t: string)
    requires ParamCount(Parse(t)) > 0
    ensures Match(Parse(t), t).None?
    decreases |t|
  {
    var k := PlaceholderAt(t);
    if k == 0 {
      PlaceholderKeyMissesItself(t[1..]);
    }
  }
}
