/**
 * A model of the EnvReplacer template engine.
 *
 * Every line of a template goes through two passes:
 *   1. `${NAME}` substitution, once per variable (ReplaceVar), and
 *   2. backslash unescaping (Unescape).
 *
 * The variables are an explicit, ordered sequence of (name, value) pairs
 * instead of the process environment. The substitution loop of replaceVar
 * is not guaranteed to terminate, so it is bounded by `fuel`, the largest
 * number of replacements one call may make; `None` stands for "did not
 * finish within fuel". Every property below is partial correctness: it
 * speaks about the results that do come back, and FuelMonotone shows that a
 * result, once it comes back, is the same for every larger fuel.
 */
module EnvReplacer {

  datatype Option<+T> = None | Some(value: T)

  /** A variable as it comes out of the environment map: (name, value). */
  type Var = (string, string)

  // ---------------------------------------------------------------------
  // Searching for a token (Java's String.indexOf)
  // ---------------------------------------------------------------------

  /** The literal token `${name}`. */
  function Token(name: string): (tok: string)
    ensures |tok| == |name| + 3 && tok[0] == '$'
  {
    "${" + name + "}"
  }

  /** `t` occurs in `s` starting at index `i`. */
  predicate OccursAt(s: string, t: string, i: int)
  {
    0 <= i && i + |t| <= |s| && s[i..i + |t|] == t
  }

  /** The leftmost occurrence of `t` in `s` at or after `k`, or -1. */
  function IndexFrom(s: string, t: string, k: nat): (r: int)
    ensures r == -1 || (k <= r && OccursAt(s, t, r))
    ensures forall i :: k <= i && (r == -1 || i < r) ==> !OccursAt(s, t, i)
    decreases |s| - k
  {
    if k + |t| > |s| then -1
    else if s[k..k + |t|] == t then k
    else IndexFrom(s, t, k + 1)
  }

  /** Java's `s.indexOf(t)`: the leftmost occurrence of `t` in `s`, or -1 when there is none. */
  function IndexOf(s: string, t: string): (r: int)
    ensures r == -1 || OccursAt(s, t, r)
    ensures forall i :: 0 <= i && (r == -1 || i < r) ==> !OccursAt(s, t, i)
  {
    IndexFrom(s, t, 0)
  }

  /** The character just before index `i` is a backslash: replaceVar's escape test. */
  predicate EscapedAt(s: string, i: int)
  {
    0 < i <= |s| && s[i - 1] == '\\'
  }

  /** Replace the occurrence of `tok` at `i` by `value`. */
  function Splice(t: string, i: nat, tok: string, value: string): string
    requires OccursAt(t, tok, i)
  {
    t[..i] + value + t[i + |tok|..]
  }

  /** The number of '$' characters in `s`. */
  function Dollars(s: string): nat
  {
    multiset(s)['$']
  }

  // ---------------------------------------------------------------------
  // replaceVar
  // ---------------------------------------------------------------------

  /**
   * What replaceVar returns, with at most `fuel` replacements: find the
   * leftmost token; stop if there is none or if it is escaped; otherwise
   * splice in the value and search again from index 0.
   */
  function VarReplaced(t: string, name: string, value: string, fuel: nat): Option<string>
    decreases fuel
  {
    var tok := Token(name);
    var i := IndexOf(t, tok);
    if i < 0 then Some(t)
    else if EscapedAt(t, i) then Some(t)
    else if fuel == 0 then None
    else VarReplaced(Splice(t, i, tok, value), name, value, fuel - 1)
  }

  /** The two ways out of replaceVar's loop: no token left, or the leftmost one escaped. */
  predicate Settled(t: string, name: string)
  {
    var i := IndexOf(t, Token(name));
    i < 0 || EscapedAt(t, i)
  }

  /** A string replaceVar returns is settled: the loop ended on its condition or on the escape test. */
  lemma {:induction false} VarReplacedSettled(t: string, name: string, value: string, fuel: nat)
    requires VarReplaced(t, name, value, fuel).Some?
    ensures Settled(VarReplaced(t, name, value, fuel).value, name)
    decreases fuel
  {
    var tok := Token(name);
    var i := IndexOf(t, tok);
    if i >= 0 && !EscapedAt(t, i) {
      VarReplacedSettled(Splice(t, i, tok, value), name, value, fuel - 1);
    }
  }

  /** If the loop exits through its condition, the result holds no occurrence of the token at all. */
  lemma UnescapedExitHasNoToken(t: string, name: string, value: string, fuel: nat)
    requires VarReplaced(t, name, value, fuel).Some?
    requires !EscapedAt(VarReplaced(t, name, value, fuel).value,
                        IndexOf(VarReplaced(t, name, value, fuel).value, Token(name)))
    ensures forall i :: !OccursAt(VarReplaced(t, name, value, fuel).value, Token(name), i)
  {
    VarReplacedSettled(t, name, value, fuel);
  }

  /** A result that comes back is the same for every larger fuel: fuel only cuts off divergence. */
  lemma {:induction false} FuelMonotone(t: string, name: string, value: string, fuel: nat, more: nat)
    requires VarReplaced(t, name, value, fuel).Some?
    requires fuel <= more
    ensures VarReplaced(t, name, value, more) == VarReplaced(t, name, value, fuel)
    decreases fuel
  {
    var tok := Token(name);
    var i := IndexOf(t, tok);
    if i >= 0 && !EscapedAt(t, i) {
      FuelMonotone(Splice(t, i, tok, value), name, value, fuel - 1, more - 1);
    }
  }

  /**
   * One step of the loop keeps everything before the occurrence it replaces,
   * and the next leftmost occurrence cannot end at or before that point:
   * an occurrence entirely inside the kept prefix would have been found first.
   */
  lemma SpliceStep(t: string, name: string, value: string)
    requires IndexOf(t, Token(name)) >= 0
    ensures var tok := Token(name);
            var i := IndexOf(t, tok);
            var r := Splice(t, i, tok, value);
            && r[..i] == t[..i]
            && (IndexOf(r, tok) == -1 || IndexOf(r, tok) + |tok| > i)
  {
    var tok := Token(name);
    var i := IndexOf(t, tok);
    var r := Splice(t, i, tok, value);
    var j := IndexOf(r, tok);
    if j != -1 && j + |tok| <= i {
      assert r[j..j + |tok|] == t[j..j + |tok|] by {
        assert r[..i] == t[..i];
        assert r[j..j + |tok|] == r[..i][j..j + |tok|];
        assert t[j..j + |tok|] == t[..i][j..j + |tok|];
      }
      assert OccursAt(t, tok, j);
      assert false;
    }
  }

  /** One replacement changes the number of '$' by the value's count minus the token's. */
  lemma SpliceDollars(t: string, i: nat, tok: string, value: string)
    requires OccursAt(t, tok, i)
    ensures Dollars(Splice(t, i, tok, value)) == Dollars(t) - Dollars(tok) + Dollars(value)
  {
    assert t == t[..i] + tok + t[i + |tok|..];
  }

  /** Every token holds a '$'. */
  lemma TokenHasDollar(name: string)
    ensures Dollars(Token(name)) >= 1
  {
    assert Token(name)[0] in multiset(Token(name));
  }

  /** Replacing a token by a '$'-free value removes at least one '$'. */
  lemma DollarFreeStepShrinks(t: string, i: nat, name: string, value: string)
    requires '$' !in value
    requires OccursAt(t, Token(name), i)
    ensures Dollars(Splice(t, i, Token(name), value)) < Dollars(t)
  {
    SpliceDollars(t, i, Token(name), value);
    TokenHasDollar(name);
    assert Dollars(value) == 0 by {
      assert '$' !in multiset(value);
    }
  }

  /**
   * A value without '$' cannot rebuild a token: each replacement removes one
   * '$' for good, so replaceVar always returns, after at most Dollars(t)
   * replacements, and its result has no more '$' than its input.
   */
  lemma {:induction false} DollarFreeValueTerminates(t: string, name: string, value: string, fuel: nat)
    requires '$' !in value
    requires Dollars(t) <= fuel
    ensures VarReplaced(t, name, value, fuel).Some?
    ensures Dollars(VarReplaced(t, name, value, fuel).value) <= Dollars(t)
    decreases fuel
  {
    var tok := Token(name);
    var i := IndexOf(t, tok);
    if i >= 0 && !EscapedAt(t, i) {
      var next := Splice(t, i, tok, value);
      DollarFreeStepShrinks(t, i, name, value);
      DollarFreeValueTerminates(next, name, value, fuel - 1);
      assert VarReplaced(t, name, value, fuel) == VarReplaced(next, name, value, fuel - 1);
    }
  }

  /**
   * A value that is its own token never ends: every replacement rebuilds
   * the same string, so no fuel is enough.
   */
  lemma {:induction false} SelfReferenceDiverges(t: string, name: string, fuel: nat)
    requires IndexOf(t, Token(name)) >= 0 && !EscapedAt(t, IndexOf(t, Token(name)))
    ensures VarReplaced(t, name, Token(name), fuel) == None
    decreases fuel
  {
    var tok := Token(name);
    var i := IndexOf(t, tok);
    assert Splice(t, i, tok, tok) == t by {
      assert t == t[..i] + tok + t[i + |tok|..];
    }
    if fuel > 0 {
      SelfReferenceDiverges(t, name, fuel - 1);
    }
  }

  /**
   * A value that is a backslash followed by its own token ends after at most
   * one replacement, provided the name holds no backslash: the token the
   * replacement brings in is the new leftmost one, and it is escaped.
   */
  lemma EscapedSelfReferenceEnds(t: string, name: string, fuel: nat)
    requires '\\' !in name
    requires fuel >= 1
    ensures var tok := Token(name);
            var i := IndexOf(t, tok);
            VarReplaced(t, name, "\\" + tok, fuel)
              == Some(if i < 0 || EscapedAt(t, i) then t else Splice(t, i, tok, "\\" + tok))
  {
    var tok := Token(name);
    var value := "\\" + tok;
    var i := IndexOf(t, tok);
    if i >= 0 && !EscapedAt(t, i) {
      var r := Splice(t, i, tok, value);
      assert '\\' !in tok by {
        assert tok == "${" + name + "}";
      }
      assert r[i] == '\\';
      assert OccursAt(r, tok, i + 1) by {
        assert r[i + 1..i + 1 + |tok|] == tok;
      }
      SpliceStep(t, name, value);
      var j := IndexOf(r, tok);
      assert j == i + 1;
      assert EscapedAt(r, j);
    }
  }

  /**
   * An escaped copy of the token in the value does not save a value that
   * starts with the token: on a line that starts with the token, every
   * replacement lands at index 0, which is never escaped.
   */
  lemma {:induction false} LeadingSelfReferenceDiverges(t: string, name: string, value: string, fuel: nat)
    requires OccursAt(t, Token(name), 0)
    requires OccursAt(value, Token(name), 0)
    ensures VarReplaced(t, name, value, fuel) == None
    decreases fuel
  {
    var tok := Token(name);
    assert IndexOf(t, tok) == 0;
    if fuel > 0 {
      var r := Splice(t, 0, tok, value);
      assert r == value + t[|tok|..];
      assert r[..|tok|] == value[..|tok|];
      LeadingSelfReferenceDiverges(r, name, value, fuel - 1);
    }
  }

  /** With value `${A}\${A}` the line `${A}` never settles, though the value holds an escaped token. */
  lemma EscapedCopyStillDiverges(fuel: nat)
    ensures VarReplaced("${A}", "A", "${A}\\${A}", fuel) == None
  {
    assert Token("A") == "${A}";
    assert OccursAt("${A}\\${A}", "${A}", 0) by {
      assert "${A}\\${A}"[0..4] == "${A}";
    }
    LeadingSelfReferenceDiverges("${A}", "A", "${A}\\${A}", fuel);
  }

  /** Java's replaceVar: a while loop that restarts its search from index 0 after every replacement. */
  method ReplaceVar(s: string, name: string, value: string, fuel: nat) returns (r: Option<string>)
    ensures r == VarReplaced(s, name, value, fuel)
    ensures IndexOf(s, Token(name)) == -1 ==> r == Some(s)
    ensures EscapedAt(s, IndexOf(s, Token(name))) ==> r == Some(s)
    ensures IndexOf(s, Token(name)) == 0 && fuel > 0 ==>
              r == VarReplaced(value + s[|Token(name)|..], name, value, fuel - 1)
    ensures r.Some? ==> Settled(r.value, name)
  {
    if IndexOf(s, Token(name)) == 0 {
      assert Splice(s, 0, Token(name), value) == value + s[|Token(name)|..];
    }
    var temp := s;
    var findName := Token(name);
    var index := IndexOf(temp, findName);
    var steps: nat := 0;
    while index >= 0
      invariant steps <= fuel
      invariant index == IndexOf(temp, findName)
      invariant VarReplaced(temp, name, value, fuel - steps) == VarReplaced(s, name, value, fuel)
      decreases fuel - steps
    {
      if index > 0 {
        if temp[index - 1] == '\\' {
          r := Some(temp);
          VarReplacedSettled(s, name, value, fuel);
          return;
        }
      }
      if steps == fuel {
        return None;
      }
      temp := temp[..index] + value + temp[index + |findName|..];
      index := IndexOf(temp, findName);
      steps := steps + 1;
    }
    r := Some(temp);
    VarReplacedSettled(s, name, value, fuel);
  }

  // ---------------------------------------------------------------------
  // unescape
  // ---------------------------------------------------------------------

  /**
   * Reference definition of unescape: a backslash and the character after it
   * become that character; a backslash with nothing after it disappears.
   */
  function Unescaped(s: string): (r: string)
    ensures |r| <= |s|
  {
    if |s| == 0 then ""
    else if s[0] == '\\' then
      if |s| == 1 then "" else [s[1]] + Unescaped(s[2..])
    else
      [s[0]] + Unescaped(s[1..])
  }

  /** Unescape shortens exactly the strings that hold a backslash, and leaves the others as they are. */
  lemma {:induction false} UnescapedIdentity(s: string)
    ensures '\\' in s ==> |Unescaped(s)| < |s|
    ensures '\\' !in s ==> Unescaped(s) == s
    ensures Unescaped(s) == s <==> '\\' !in s
  {
    if |s| > 0 && s[0] != '\\' {
      UnescapedIdentity(s[1..]);
      assert s == [s[0]] + s[1..];
      assert '\\' in s ==> '\\' in s[1..];
    }
  }

  /** After scanning all of `s`, unescape's flag is still set: `s` ends in an unpaired backslash. */
  predicate OpenEscape(s: string)
  {
    if |s| == 0 then false
    else if s[0] == '\\' then |s| == 1 || OpenEscape(s[2..])
    else OpenEscape(s[1..])
  }

  /** Unescape works piecewise, cut anywhere the flag is clear. */
  lemma {:induction false} UnescapedAppend(p: string, q: string)
    requires !OpenEscape(p)
    ensures Unescaped(p + q) == Unescaped(p) + Unescaped(q)
  {
    if |p| == 0 {
      assert p + q == q;
    } else if p[0] == '\\' {
      assert (p + q)[2..] == p[2..] + q;
      UnescapedAppend(p[2..], q);
    } else {
      assert (p + q)[1..] == p[1..] + q;
      UnescapedAppend(p[1..], q);
    }
  }

  /** Where the flag is clear, `\X` emits exactly X whatever X is (so `\\` emits one backslash). */
  lemma EscapedCharEmitted(p: string, x: char, q: string)
    requires !OpenEscape(p)
    ensures Unescaped(p + ['\\', x] + q) == Unescaped(p) + [x] + Unescaped(q)
  {
    var pair := ['\\', x] + q;
    assert p + ['\\', x] + q == p + pair;
    UnescapedAppend(p, pair);
    assert pair[2..] == q;
    assert Unescaped(pair) == [x] + Unescaped(q);
  }

  /** A final unpaired backslash emits nothing. */
  lemma TrailingBackslashDropped(p: string)
    requires !OpenEscape(p)
    ensures Unescaped(p + ['\\']) == Unescaped(p)
    ensures OpenEscape(p + ['\\'])
  {
    UnescapedAppend(p, ['\\']);
    OpenEscapeAppend(p, ['\\']);
  }

  /** The flag after `p + q` is the flag after `q` alone, when the flag after `p` is clear. */
  lemma {:induction false} OpenEscapeAppend(p: string, q: string)
    requires !OpenEscape(p)
    ensures OpenEscape(p + q) == OpenEscape(q)
  {
    if |p| == 0 {
      assert p + q == q;
    } else if p[0] == '\\' {
      assert (p + q)[2..] == p[2..] + q;
      OpenEscapeAppend(p[2..], q);
    } else {
      assert (p + q)[1..] == p[1..] + q;
      OpenEscapeAppend(p[1..], q);
    }
  }

  /** Unescape's step on a plain character: it is copied. */
  lemma UnescapedPlain(s: string, i: nat)
    requires i < |s| && s[i] != '\\'
    ensures Unescaped(s[i..]) == [s[i]] + Unescaped(s[i + 1..])
  {
    assert s[i..][1..] == s[i + 1..];
  }

  /** Unescape's step on a backslash and the character after it: that character is copied. */
  lemma UnescapedPair(s: string, i: nat)
    requires 0 < i < |s| && s[i - 1] == '\\'
    ensures Unescaped(s[i - 1..]) == [s[i]] + Unescaped(s[i + 1..])
  {
    assert s[i - 1..][2..] == s[i + 1..];
  }

  /** Java's unescape: one pass with a `lastWasEscape` flag, appending to a builder. */
  method Unescape(s: string) returns (r: string)
    ensures r == Unescaped(s)
    ensures |r| <= |s|
    ensures r == s <==> '\\' !in s
  {
    var sb: string := [];
    var lastWasEscape := false;
    for i := 0 to |s|
      invariant lastWasEscape ==> 0 < i && s[i - 1] == '\\'
      invariant !lastWasEscape ==> sb + Unescaped(s[i..]) == Unescaped(s)
      invariant lastWasEscape ==> sb + Unescaped(s[i - 1..]) == Unescaped(s)
    {
      var c := s[i];
      if lastWasEscape {
        UnescapedPair(s, i);
        assert (sb + [c]) + Unescaped(s[i + 1..]) == sb + Unescaped(s[i - 1..]);
        sb := sb + [c];
        lastWasEscape := false;
      } else {
        if c == '\\' {
          lastWasEscape := true;
        } else {
          UnescapedPlain(s, i);
          assert (sb + [c]) + Unescaped(s[i + 1..]) == sb + Unescaped(s[i..]);
          sb := sb + [c];
          lastWasEscape := false;
        }
      }
    }
    if lastWasEscape {
      assert s[|s| - 1..] == ['\\'];
    }
    r := sb;
    UnescapedIdentity(s);
  }

  // ---------------------------------------------------------------------
  // Escaping: the inverse of unescape for template authors
  // ---------------------------------------------------------------------

  /** Put a backslash before every backslash and every '$' of `s`. */
  function Escaped(s: string): string
  {
    if |s| == 0 then ""
    else if s[0] == '\\' || s[0] == '$' then ['\\', s[0]] + Escaped(s[1..])
    else [s[0]] + Escaped(s[1..])
  }

  /** Unescape undoes Escaped. */
  lemma {:induction false} UnescapeEscaped(s: string)
    ensures Unescaped(Escaped(s)) == s
  {
    if |s| > 0 {
      UnescapeEscaped(s[1..]);
      if s[0] == '\\' || s[0] == '$' {
        assert (['\\', s[0]] + Escaped(s[1..]))[2..] == Escaped(s[1..]);
      } else {
        assert ([s[0]] + Escaped(s[1..]))[1..] == Escaped(s[1..]);
      }
    }
  }

  /** In an escaped string every '$' has a backslash right before it. */
  lemma {:induction false} EscapedDollarsAreEscaped(s: string)
    ensures forall i :: 0 <= i < |Escaped(s)| && Escaped(s)[i] == '$' ==> EscapedAt(Escaped(s), i)
  {
    if |s| > 0 {
      EscapedDollarsAreEscaped(s[1..]);
      var e := Escaped(s);
      var tail := Escaped(s[1..]);
      if s[0] == '\\' || s[0] == '$' {
        assert forall i :: 2 <= i < |e| ==> e[i] == tail[i - 2];
      } else {
        assert forall i :: 1 <= i < |e| ==> e[i] == tail[i - 1];
      }
    }
  }

  /** replaceVar leaves an escaped string alone: its leftmost token, if any, starts with an escaped '$'. */
  lemma EscapedLineNotSubstituted(s: string, name: string, value: string, fuel: nat)
    ensures VarReplaced(Escaped(s), name, value, fuel) == Some(Escaped(s))
  {
    var e := Escaped(s);
    var i := IndexOf(e, Token(name));
    if i >= 0 {
      assert e[i] == Token(name)[0] == '$' by {
        assert e[i..i + |Token(name)|] == Token(name);
      }
      EscapedDollarsAreEscaped(s);
    }
  }

  // ---------------------------------------------------------------------
  // replaceEnv(List<String>)
  // ---------------------------------------------------------------------

  /** The inner loop of replaceEnv: replaceVar once per variable, in order (a left fold). */
  function SubstitutedAll(line: string, vars: seq<Var>, fuel: nat): Option<string>
    decreases |vars|
  {
    if vars == [] then Some(line)
    else
      match VarReplaced(line, vars[0].0, vars[0].1, fuel)
      case None => None
      case Some(t) => SubstitutedAll(t, vars[1..], fuel)
  }

  /** One output line of replaceEnv: every substitution, then unescape once. */
  function TransformedLine(line: string, vars: seq<Var>, fuel: nat): Option<string>
  {
    match SubstitutedAll(line, vars, fuel)
    case None => None
    case Some(t) => Some(Unescaped(t))
  }

  /** Variable values without '$' make every substitution return, with fuel as large as the line's count of '$'. */
  lemma {:induction false} DollarFreeVarsTerminate(line: string, vars: seq<Var>, fuel: nat)
    requires forall k :: 0 <= k < |vars| ==> '$' !in vars[k].1
    requires Dollars(line) <= fuel
    ensures SubstitutedAll(line, vars, fuel).Some?
    decreases |vars|
  {
    if vars != [] {
      DollarFreeValueTerminates(line, vars[0].0, vars[0].1, fuel);
      var t := VarReplaced(line, vars[0].0, vars[0].1, fuel).value;
      DollarFreeVarsTerminate(t, vars[1..], fuel);
    }
  }

  /** A whole line's result, once it comes back, is the same for every larger fuel. */
  lemma {:induction false} SubstitutedAllFuelMonotone(line: string, vars: seq<Var>, fuel: nat, more: nat)
    requires SubstitutedAll(line, vars, fuel).Some?
    requires fuel <= more
    ensures SubstitutedAll(line, vars, more) == SubstitutedAll(line, vars, fuel)
    decreases |vars|
  {
    if vars != [] {
      FuelMonotone(line, vars[0].0, vars[0].1, fuel, more);
      var t := VarReplaced(line, vars[0].0, vars[0].1, fuel).value;
      SubstitutedAllFuelMonotone(t, vars[1..], fuel, more);
    }
  }

  /** A line written as Escaped(s) comes out of replaceEnv as exactly `s`, whatever the variables. */
  lemma {:induction false} EscapedLineVerbatim(s: string, vars: seq<Var>, fuel: nat)
    ensures TransformedLine(Escaped(s), vars, fuel) == Some(s)
  {
    EscapedLineSurvives(s, vars, fuel);
    UnescapeEscaped(s);
  }

  lemma {:induction false} EscapedLineSurvives(s: string, vars: seq<Var>, fuel: nat)
    ensures SubstitutedAll(Escaped(s), vars, fuel) == Some(Escaped(s))
    decreases |vars|
  {
    if vars != [] {
      EscapedLineNotSubstituted(s, vars[0].0, vars[0].1, fuel);
      EscapedLineSurvives(s, vars[1..], fuel);
    }
  }

  /**
   * Java's replaceEnv(List<String>) with the environment passed in: for each
   * line, replaceVar once per variable, then unescape, appended to a fresh
   * list. `None` when some replaceVar call does not finish within `fuel`.
   */
  method ReplaceEnv(lines: seq<string>, vars: seq<Var>, fuel: nat) returns (r: Option<seq<string>>)
    ensures r.Some? <==> forall i :: 0 <= i < |lines| ==> TransformedLine(lines[i], vars, fuel).Some?
    ensures r.Some? ==> |r.value| == |lines|
    ensures r.Some? ==> forall i :: 0 <= i < |lines| ==> TransformedLine(lines[i], vars, fuel) == Some(r.value[i])
    ensures vars == [] ==> r.Some? && forall i :: 0 <= i < |lines| ==> r.value[i] == Unescaped(lines[i])
    ensures ((forall k :: 0 <= k < |vars| ==> '$' !in vars[k].1) &&
             (forall i :: 0 <= i < |lines| ==> Dollars(lines[i]) <= fuel)) ==> r.Some?
  {
    var outLines: seq<string> := [];
    for n := 0 to |lines|
      invariant |outLines| == n
      invariant forall i :: 0 <= i < n ==> TransformedLine(lines[i], vars, fuel) == Some(outLines[i])
    {
      var tempLine := lines[n];
      for j := 0 to |vars|
        invariant SubstitutedAll(tempLine, vars[j..], fuel) == SubstitutedAll(lines[n], vars, fuel)
      {
        assert vars[j..][0] == vars[j] && vars[j..][1..] == vars[j + 1..];
        var next := ReplaceVar(tempLine, vars[j].0, vars[j].1, fuel);
        if next.None? {
          if (forall k :: 0 <= k < |vars| ==> '$' !in vars[k].1) && Dollars(lines[n]) <= fuel {
            DollarFreeVarsTerminate(lines[n], vars, fuel);
          }
          return None;
        }
        tempLine := next.value;
      }
      assert vars[|vars|..] == [];
      tempLine := Unescape(tempLine);
      outLines := outLines + [tempLine];
    }
    r := Some(outLines);
  }

  // ---------------------------------------------------------------------
  // Worked examples from the documentation, and two claims that do not hold
  // ---------------------------------------------------------------------

  /** `\${HOME}` renders as `${HOME}`: the escape stops the substitution and unescape drops the backslash. */
  lemma EscapedHomeExample()
    ensures TransformedLine("\\${HOME}", [("HOME", "/root")], 0) == Some("${HOME}")
  {
    assert Token("HOME") == "${HOME}";
    assert IndexOf("\\${HOME}", "${HOME}") == 1 by {
      assert "\\${HOME}"[0..7][0] != "${HOME}"[0];
      assert OccursAt("\\${HOME}", "${HOME}", 1);
    }
    assert EscapedAt("\\${HOME}", 1);
    assert VarReplaced("\\${HOME}", "HOME", "/root", 0) == Some("\\${HOME}");
    assert Unescaped("\\${HOME}") == "${HOME}" by {
      UnescapedIdentity("HOME}");
      assert "\\${HOME}"[2..] == "{HOME}";
      assert "{HOME}"[1..] == "HOME}";
    }
  }

  /** `${HOME}/bin` renders with HOME's value in place of the token. */
  lemma PlainHomeExample()
    ensures TransformedLine("${HOME}/bin", [("HOME", "/root")], 1) == Some("/root/bin")
  {
    assert Token("HOME") == "${HOME}";
    assert IndexOf("${HOME}/bin", "${HOME}") == 0 by {
      assert OccursAt("${HOME}/bin", "${HOME}", 0);
    }
    assert Splice("${HOME}/bin", 0, "${HOME}", "/root") == "/root/bin";
    assert IndexOf("/root/bin", "${HOME}") == -1 by {
      forall i ensures !OccursAt("/root/bin", "${HOME}", i) {
        if 0 <= i && i + 7 <= 9 {
          assert "/root/bin"[i..i + 7][0] != '$';
        }
      }
    }
    assert VarReplaced("${HOME}/bin", "HOME", "/root", 1) == Some("/root/bin");
    UnescapedIdentity("/root/bin");
  }

  /** Running replaceEnv on its own output can change it again: `\${A}` gives `${A}`, which then gives A's value. */
  lemma NotIdempotent()
    ensures TransformedLine("\\${A}", [("A", "x")], 1) == Some("${A}")
    ensures TransformedLine("${A}", [("A", "x")], 1) == Some("x")
  {
    assert Token("A") == "${A}";
    assert IndexOf("\\${A}", "${A}") == 1 by {
      assert "\\${A}"[0..4][0] != "${A}"[0];
      assert OccursAt("\\${A}", "${A}", 1);
    }
    assert EscapedAt("\\${A}", 1);
    assert Unescaped("\\${A}") == "${A}" by {
      UnescapedIdentity("A}");
      assert "\\${A}"[2..] == "{A}";
      assert "{A}"[1..] == "A}";
    }
    assert IndexOf("${A}", "${A}") == 0 by {
      assert OccursAt("${A}", "${A}", 0);
    }
    assert Splice("${A}", 0, "${A}", "x") == "x";
    assert IndexOf("x", "${A}") == -1;
    assert VarReplaced("${A}", "A", "x", 1) == Some("x");
    UnescapedIdentity("${A}");
    UnescapedIdentity("x");
  }

  /**
   * The order in which the variables are visited matters, even when no value
   * contains '$': with B = "A" and A = "z", `${${B}}` becomes "z" when B goes
   * first and `${A}` when A goes first.
   */
  lemma OrderMatters()
    ensures TransformedLine("${${B}}", [("B", "A"), ("A", "z")], 1) == Some("z")
    ensures TransformedLine("${${B}}", [("A", "z"), ("B", "A")], 1) == Some("${A}")
  {
    assert Token("A") == "${A}";
    assert Token("B") == "${B}";
    assert IndexOf("${${B}}", "${B}") == 2 by {
      assert "${${B}}"[0..4][2] != "${B}"[2];
      assert "${${B}}"[1..5][0] != "${B}"[0];
      assert OccursAt("${${B}}", "${B}", 2);
    }
    assert Splice("${${B}}", 2, "${B}", "A") == "${A}";
    assert IndexOf("${A}", "${B}") == -1 by {
      assert "${A}"[0..4][2] != "${B}"[2];
    }
    assert IndexOf("${A}", "${A}") == 0 by {
      assert OccursAt("${A}", "${A}", 0);
    }
    assert Splice("${A}", 0, "${A}", "z") == "z";
    assert IndexOf("z", "${A}") == -1;
    assert IndexOf("${${B}}", "${A}") == -1 by {
      forall i ensures !OccursAt("${${B}}", "${A}", i) {
        if 0 <= i && i + 4 <= 7 {
          assert "${${B}}"[i..i + 4][3] != '}' || "${${B}}"[i..i + 4][2] != 'A';
        }
      }
    }
    assert SubstitutedAll("${${B}}", [("B", "A"), ("A", "z")], 1) == Some("z") by {
      assert VarReplaced("${${B}}", "B", "A", 1) == Some("${A}");
      assert VarReplaced("${A}", "A", "z", 1) == Some("z");
      assert [("B", "A"), ("A", "z")][1..] == [("A", "z")];
    }
    assert SubstitutedAll("${${B}}", [("A", "z"), ("B", "A")], 1) == Some("${A}") by {
      assert VarReplaced("${${B}}", "A", "z", 1) == Some("${${B}}");
      assert VarReplaced("${${B}}", "B", "A", 1) == Some("${A}");
      assert [("A", "z"), ("B", "A")][1..] == [("B", "A")];
    }
    UnescapedIdentity("z");
    UnescapedIdentity("${A}");
  }
}
