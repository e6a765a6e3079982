/** What repeated str_replace does to "{{ ... }}" placeholder tokens: when
    every "{{" in a text opens a known token and the replacement values hold
    no '{', replacing the tokens one after another leaves no "{{" at all. */
module Placeholders {
  import opened PhpStrings

  /** A placeholder token: it opens with "{{" and has no other '{'. */
  predicate TokenShaped(t: string) {
    |t| >= 3 && t[0] == '{' && t[1] == '{' && forall j :: 2 <= j < |t| ==> t[j] != '{'
  }

  predicate DoubleBraceAt(s: string, i: nat) {
    i + 1 < |s| && s[i] == '{' && s[i + 1] == '{'
  }

  ghost predicate OpensToken(s: string, i: nat, tokens: set<string>) {
    exists t :: t in tokens && StartsAt(s, i, t)
  }

  /** Every "{{" in `s` is the start of one of `tokens`. */
  ghost predicate BracesOpenOnly(s: string, tokens: set<string>) {
    forall i: nat :: DoubleBraceAt(s, i) ==> OpensToken(s, i, tokens)
  }

  /** Replacing token `t` by a value without '{' removes `t` from the tokens
      that "{{" may open. */
  lemma {:induction false} ReplaceRetiresToken(s: string, t: string, v: string, tokens: set<string>)
    requires t in tokens && forall u :: u in tokens ==> TokenShaped(u)
    requires '{' !in v
    requires BracesOpenOnly(s, tokens)
    ensures BracesOpenOnly(StrReplace(s, t, v), tokens - {t})
    decreases |s|
  {
    var r := StrReplace(s, t, v);
    if |s| < |t| {
      forall i: nat | DoubleBraceAt(r, i) ensures OpensToken(r, i, tokens - {t}) {
        var u :| u in tokens && StartsAt(s, i, u);
        assert u != t;
      }
    } else if StartsAt(s, 0, t) {
      var rest := s[|t|..];
      ShiftBraces(s, |t|, tokens);
      ReplaceRetiresToken(rest, t, v, tokens);
      var r' := StrReplace(rest, t, v);
      assert r == v + r';
      PrependBraceFree(v, r', tokens - {t});
    } else {
      var rest := s[1..];
      ShiftBraces(s, 1, tokens);
      ReplaceRetiresToken(rest, t, v, tokens);
      var r' := StrReplace(rest, t, v);
      StrReplaceSkip(s, t, v);
      assert r == [s[0]] + r';
      if DoubleBraceAt(r, 0) {
        FrontBraceKept(s, t, v, tokens);
      }
      PrependChar(s[0], r', tokens - {t});
    }
  }

  /** The scan step where `s` does not start with `t`: a "{{" at the front of
      the result is still the front of a token other than `t`. */
  lemma FrontBraceKept(s: string, t: string, v: string, tokens: set<string>)
    requires t in tokens && forall u :: u in tokens ==> TokenShaped(u)
    requires '{' !in v
    requires BracesOpenOnly(s, tokens)
    requires |s| >= |t| && !StartsAt(s, 0, t)
    requires DoubleBraceAt([s[0]] + StrReplace(s[1..], t, v), 0)
    ensures OpensToken([s[0]] + StrReplace(s[1..], t, v), 0, tokens - {t})
  {
    var rest := s[1..];
    var r' := StrReplace(rest, t, v);
    var r := [s[0]] + r';
    if |rest| == 0 || rest[0] != '{' {
      assert false;
    } else {
      assert DoubleBraceAt(s, 0);
      var u :| u in tokens && StartsAt(s, 0, u);
      assert u != t;
      NoTokenInside(s, u, t);
      StrReplaceKeepsPrefix(rest, t, v, |u| - 1);
      assert r[..|u|] == [s[0]] + r'[..|u| - 1];
      assert [s[0]] + rest[..|u| - 1] == s[..|u|];
      assert StartsAt(r, 0, u);
    }
  }

  /** No token starts strictly inside a token at the front of `s`: its
      characters after the first are never "{{". */
  lemma NoTokenInside(s: string, u: string, t: string)
    requires TokenShaped(u) && TokenShaped(t) && StartsAt(s, 0, u)
    ensures forall j: nat :: j < |u| - 1 ==> !StartsAt(s[1..], j, t)
  {
    var rest := s[1..];
    forall j: nat | j < |u| - 1 ensures !StartsAt(rest, j, t) {
      if j + 2 < |u| {
        assert rest[j + 1] == u[j + 2] != t[1];
      } else {
        assert rest[j] == u[j + 1] != t[0];
      }
    }
  }

  /** Text without '{' in front keeps the "{{" property. */
  lemma PrependBraceFree(v: string, s: string, tokens: set<string>)
    requires '{' !in v && BracesOpenOnly(s, tokens)
    ensures BracesOpenOnly(v + s, tokens)
  {
    var r := v + s;
    forall i: nat | DoubleBraceAt(r, i) ensures OpensToken(r, i, tokens) {
      assert i >= |v|;
      assert DoubleBraceAt(s, i - |v|);
      var u :| u in tokens && StartsAt(s, i - |v|, u);
      assert r[i..i + |u|] == s[i - |v|..i - |v| + |u|];
    }
  }

  /** One character in front keeps the "{{" property when a "{{" it starts
      opens a token. */
  lemma PrependChar(c: char, s: string, tokens: set<string>)
    requires BracesOpenOnly(s, tokens)
    requires DoubleBraceAt([c] + s, 0) ==> OpensToken([c] + s, 0, tokens)
    ensures BracesOpenOnly([c] + s, tokens)
  {
    var r := [c] + s;
    forall i: nat | DoubleBraceAt(r, i) ensures OpensToken(r, i, tokens) {
      if i > 0 {
        assert DoubleBraceAt(s, i - 1);
        var u :| u in tokens && StartsAt(s, i - 1, u);
        assert r[i..i + |u|] == s[i - 1..i - 1 + |u|];
      }
    }
  }

  /** Dropping the first `k` characters keeps the "{{" property. */
  lemma ShiftBraces(s: string, k: nat, tokens: set<string>)
    requires k <= |s| && BracesOpenOnly(s, tokens)
    ensures BracesOpenOnly(s[k..], tokens)
  {
    var rest := s[k..];
    forall i: nat | DoubleBraceAt(rest, i) ensures OpensToken(rest, i, tokens) {
      assert DoubleBraceAt(s, i + k);
      var u :| u in tokens && StartsAt(s, i + k, u);
      assert rest[i..i + |u|] == s[i + k..i + k + |u|];
    }
  }

  /** With no token left to open, no token-shaped string occurs. */
  lemma NoBracesNoToken(s: string, t: string)
    requires BracesOpenOnly(s, {}) && TokenShaped(t)
    ensures !Contains(s, t)
  {
    if Contains(s, t) {
      var i: nat :| StartsAt(s, i, t);
      assert s[i] == t[0] && s[i + 1] == t[1];
      assert DoubleBraceAt(s, i);
    }
  }
}
