/**
 * The one regular-expression shape the application runs over URLs:
 * `[?&]name=[^&]+`, searched leftmost-first without the global flag (so only
 * the first match is replaced). Used by the key redaction of the regions
 * client and by the time decoding of the sidebar.
 */
module UrlPatterns {
  import opened Wrappers
  import opened Text

  /** Whether `[?&]name=[^&]+` can match starting at index `i` of `s`. */
  predicate ParamAt(s: string, name: string, i: nat) {
    && i + |name| + 2 < |s|
    && (s[i] == '?' || s[i] == '&')
    && s[i + 1..i + 1 + |name|] == name
    && s[i + 1 + |name|] == '='
    && s[i + |name| + 2] != '&'
  }

  /** The leftmost index at or after `from` where the pattern matches. */
  function FindParam(s: string, name: string, from: nat): (r: Option<nat>)
    ensures r.Some? ==> from <= r.value && ParamAt(s, name, r.value)
    ensures r.Some? ==> forall k :: from <= k < r.value ==> !ParamAt(s, name, k)
    ensures r.None? ==> forall k :: from <= k < |s| ==> !ParamAt(s, name, k)
    decreases |s| - from
  {
    if from >= |s| then None
    else if ParamAt(s, name, from) then Some(from)
    else FindParam(s, name, from + 1)
  }

  /** The end of the greedy `[^&]+` run that starts at `j`: the next `&`, or the end of the string. */
  function RunEnd(s: string, j: nat): (e: nat)
    requires j <= |s|
    ensures j <= e <= |s|
    ensures forall k :: j <= k < e ==> s[k] != '&'
    ensures e == |s| || s[e] == '&'
    decreases |s| - j
  {
    if j == |s| || s[j] == '&' then j else RunEnd(s, j + 1)
  }

  /** A match found where the text before holds no separator is the first match. */
  lemma FirstMatchAt(s: string, name: string, i: nat)
    requires ParamAt(s, name, i)
    requires forall k :: 0 <= k < i ==> s[k] != '?' && s[k] != '&'
    ensures FindParam(s, name, 0) == Some(i)
  {
  }

  /** No separator before `from` and no match after it: there is no match at all. */
  lemma NoMatch(s: string, name: string, from: nat)
    requires forall k :: 0 <= k < from && k < |s| ==> s[k] != '?' && s[k] != '&'
    requires forall k :: from <= k < |s| ==> !ParamAt(s, name, k)
    ensures FindParam(s, name, 0) == None
  {
  }

  /** The end of a run whose characters are known. */
  lemma RunEndAt(s: string, j: nat, e: nat)
    requires j <= e <= |s|
    requires forall k :: j <= k < e ==> s[k] != '&'
    requires e == |s| || s[e] == '&'
    ensures RunEnd(s, j) == e
    decreases e - j
  {
    if j < e {
      RunEndAt(s, j + 1, e);
    }
  }

  /** `s` holds neither separator of the pattern. */
  predicate NoSeparator(s: string) {
    Excludes(s, '?') && Excludes(s, '&')
  }

  /** A match in the second half of a concatenation is a match of that half, shifted. */
  lemma ParamAtShift(a: string, b: string, name: string, k: nat)
    ensures ParamAt(a + b, name, |a| + k) <==> ParamAt(b, name, k)
  {
    var s := a + b;
    if |a| + k + |name| + 2 < |s| {
      assert s[|a| + k + 1..|a| + k + 1 + |name|] == b[k + 1..k + 1 + |name|];
    }
  }

  /** After a prefix without separators, the first match is the match at the start of the rest. */
  lemma FindAfterBase(base: string, h: string, n: string)
    requires NoSeparator(base) && ParamAt(h, n, 0)
    ensures FindParam(base + h, n, 0) == Some(|base|)
  {
    var s := base + h;
    ParamAtShift(base, h, n, 0);
    forall k | 0 <= k < |base|
      ensures s[k] != '?' && s[k] != '&'
    {
      assert s[k] == base[k];
    }
    FirstMatchAt(s, n, |base|);
  }

  /** After a prefix without separators, a rest without matches leaves no match at all. */
  lemma NoneAfterBase(base: string, h: string, n: string)
    requires NoSeparator(base)
    requires forall k: nat :: !ParamAt(h, n, k)
    ensures FindParam(base + h, n, 0) == None
  {
    var s := base + h;
    forall k | |base| <= k < |s|
      ensures !ParamAt(s, n, k)
    {
      ParamAtShift(base, h, n, k - |base|);
    }
    forall k | 0 <= k < |base| && k < |s|
      ensures s[k] != '?' && s[k] != '&'
    {
      assert s[k] == base[k];
    }
    NoMatch(s, n, |base|);
  }

  /** A separator, a name, `=` and a run that does not start with `&` match the pattern for that name. */
  lemma ParamAtHead(c: char, n: string, r: string)
    requires (c == '?' || c == '&') && r != [] && r[0] != '&'
    ensures ParamAt([c] + (n + ("=" + r)), n, 0)
  {
    var s := [c] + (n + ("=" + r));
    assert s[1..1 + |n|] == n;
    assert s[|n| + 2] == r[0];
  }

  /** The characters of a value without `&`, inside a URL. */
  lemma ValueHasNoAmp(pre: string, v: string, tail: string)
    requires Excludes(v, '&')
    ensures forall k :: |pre| <= k < |pre| + |v| ==> (pre + (v + tail))[k] != '&'
  {
    var s := pre + (v + tail);
    forall k | |pre| <= k < |pre| + |v|
      ensures s[k] != '&'
    {
      assert s[k] == v[k - |pre|];
    }
  }

  /** What follows the value: the end of the URL or an `&`. */
  lemma AfterValue(pre: string, v: string, tail: string)
    requires tail == [] || tail[0] == '&'
    ensures var s := pre + (v + tail);
      |pre| + |v| == |s| || s[|pre| + |v|] == '&'
  {
    if tail != [] {
      assert (pre + (v + tail))[|pre| + |v|] == tail[0];
    }
  }

  /** A `[^&]+` run starting at a value without `&` ends where the value ends. */
  lemma RunAfter(pre: string, v: string, tail: string)
    requires Excludes(v, '&')
    requires tail == [] || tail[0] == '&'
    ensures RunEnd(pre + (v + tail), |pre|) == |pre| + |v|
  {
    ValueHasNoAmp(pre, v, tail);
    AfterValue(pre, v, tail);
    RunEndAt(pre + (v + tail), |pre|, |pre| + |v|);
  }

  /** Whether `q` starts with `name=`. */
  predicate StartsWithParam(q: string, name: string) {
    |name| < |q| && q[..|name|] == name && q[|name|] == '='
  }

  /** Right after a separator, a piece holding `=` but not starting with `name=` gives no match for `name`. */
  lemma HeadNotParam(c: char, q: string, tail: string, name: string)
    requires '=' !in name && '=' in q && !StartsWithParam(q, name)
    ensures !ParamAt([c] + q + tail, name, 0)
  {
    var s := [c] + q + tail;
    if |name| + 2 < |s| {
      var e :| 0 <= e < |q| && q[e] == '=';
      if |name| < |q| {
        assert s[1..1 + |name|] == q[..|name|];
        assert s[1 + |name|] == q[|name|];
      } else {
        assert s[1..1 + |name|][e] == '=';
      }
    }
  }

  /** Inside a piece without separators there is no match. */
  lemma InsidePiece(c: char, q: string, tail: string, name: string, k: nat)
    requires NoSeparator(q) && 0 < k < |q| + 1
    ensures !ParamAt([c] + q + tail, name, k)
  {
    assert ([c] + q + tail)[k] == q[k - 1];
  }

  /** A separator followed by `&`-joined pieces of that kind holds no match for `name` at any index `k`. */
  lemma {:induction false} NoParamAtJoin(c: char, qs: seq<string>, name: string, k: nat)
    requires '=' !in name
    requires forall j :: 0 <= j < |qs| ==> NoSeparator(qs[j]) && '=' in qs[j] && !StartsWithParam(qs[j], name)
    ensures !ParamAt([c] + Join(qs, "&"), name, k)
    decreases |qs|
  {
    if qs != [] {
      var q := qs[0];
      var tail := if |qs| == 1 then "" else "&" + Join(qs[1..], "&");
      var a := [c] + q;
      var s := a + tail;
      assert [c] + Join(qs, "&") == s;
      if k == 0 {
        HeadNotParam(c, q, tail, name);
      } else if k < |a| {
        InsidePiece(c, q, tail, name, k);
      } else if |qs| > 1 {
        NoParamAtJoin('&', qs[1..], name, k - |a|);
        ParamAtShift(a, tail, name, k - |a|);
        assert !ParamAt(s, name, k);
      } else {
        assert |s| == |a|;
      }
    }
  }

  /** Re-association of a three-part concatenation. */
  lemma Assoc(a: string, b: string, c: string)
    ensures a + b + c == a + (b + c)
  {
  }

  /** The three pieces of `pre + (v + tail)`, cut back out. */
  lemma Pieces(pre: string, v: string, tail: string)
    ensures var s := pre + (v + tail);
      s[..|pre|] == pre && s[|pre|..|pre| + |v|] == v && s[|pre| + |v|..] == tail
  {
  }

  /** The URL `base?name=value tail`, regrouped as its part up to `=` and its part after. */
  lemma LeadingShape(base: string, q: string, n: string, v: string, tail: string)
    requires q == n + "=" + v + tail
    ensures base + "?" + q == (base + "?" + n + "=") + (v + tail)
  {
    var r := v + tail;
    Assoc(n, "=", v);
    Assoc(n + "=", v, tail);
    Assoc(base, "?", q);
    Assoc(base + "?", n + "=", r);
    Assoc(base + "?", n, "=");
  }

  /**
   * In the URL `base?name=value tail`, where `base` holds no separator and
   * `value` is non-empty and does not start with `&`, the pattern for `name`
   * first matches at the `?`.
   */
  lemma LeadingMatch(base: string, q: string, n: string, v: string, tail: string)
    requires NoSeparator(base) && v != [] && v[0] != '&'
    requires q == n + "=" + v + tail
    ensures FindParam(base + "?" + q, n, 0) == Some(|base|)
  {
    var r := v + tail;
    Assoc(n, "=", v);
    Assoc(n + "=", v, tail);
    Assoc(n, "=", r);
    ParamAtHead('?', n, r);
    FindAfterBase(base, "?" + q, n);
    Assoc(base, "?", q);
  }
}
