/** DNS name constraints (name_constraints.cc, section 4.2.1.10 of RFC 5280) and wildcard names:
    when permitting "*.d" permits everything the wildcard stands for. */
module NameConstraints {
  import opened Strings

  predicate EqualNoCase(a: string, b: string) {
    |a| == |b| && forall i | 0 <= i < |a| :: LowerChar(a[i]) == LowerChar(b[i])
  }

  predicate EndsWithNoCase(s: string, suffix: string) {
    |suffix| <= |s| && EqualNoCase(suffix, s[|s| - |suffix|..])
  }

  // Absolute names lose their trailing dot.
  function DropTrailingDot(s: string): string {
    if s != "" && s[|s| - 1] == '.' then s[..|s| - 1] else s
  }

  // A leading dot only asks for a subdomain.
  function Bare(c: string): string {
    if c != "" && c[0] == '.' then c[1..] else c
  }

  // ---------- the source's tests ----------

  // The constraint minus its first label is the domain of the wildcard.
  predicate PartialMatch(name: string, constraint: string) {
    |name| > 2 && name[0] == '*' && name[1] == '.' &&
    var dot := Find(constraint, '.');
    dot < |constraint| && EqualNoCase(name[2..], constraint[dot + 1..])
  }

  predicate SubtreeMatch(name: string, constraint: string) {
    EndsWithNoCase(name, constraint) &&
    (|name| == |constraint| ||
     var c := Bare(constraint);
     |name| > |c| && name[|name| - |c| - 1] == '.')
  }

  predicate DnsNameMatches(name: string, constraint: string, partial: bool) {
    constraint == "" ||
    var n, c := DropTrailingDot(name), DropTrailingDot(constraint);
    (partial && PartialMatch(n, c)) || SubtreeMatch(n, c)
  }

  // The DNS part of the permitted and excluded subtrees.
  datatype Constraints = Constraints(permitted: seq<string>, permittedPresent: bool, excluded: seq<string>)

  ghost predicate IsPermitted(nc: Constraints, name: string) {
    && (forall i | 0 <= i < |nc.excluded| :: !DnsNameMatches(name, nc.excluded[i], true))
    && (!nc.permittedPresent || exists i | 0 <= i < |nc.permitted| :: DnsNameMatches(name, nc.permitted[i], false))
  }

  method IsPermittedDnsName(nc: Constraints, name: string) returns (r: bool)
    ensures r == IsPermitted(nc, name)
  {
    hide DnsNameMatches;
    for i := 0 to |nc.excluded|
      invariant forall k | 0 <= k < i :: !DnsNameMatches(name, nc.excluded[k], true)
    {
      if DnsNameMatches(name, nc.excluded[i], true) {
        return false;
      }
    }
    if !nc.permittedPresent {
      return true;
    }
    for i := 0 to |nc.permitted|
      invariant forall k | 0 <= k < i :: !DnsNameMatches(name, nc.permitted[k], false)
    {
      if DnsNameMatches(name, nc.permitted[i], false) {
        return true;
      }
    }
    return false;
  }

  // ---------- matching by labels ----------

  function Labels(s: string): (r: seq<string>)
    ensures |r| >= 1
    decreases |s|
  {
    var i := Find(s, '.');
    if i == |s| then [s] else [s[..i]] + Labels(s[i + 1..])
  }

  // The labels of the constraint end the labels of the name.
  predicate LabelSuffix(name: seq<string>, constraint: seq<string>) {
    |constraint| <= |name| &&
    forall i | 0 <= i < |constraint| :: EqualNoCase(name[|name| - |constraint| + i], constraint[i])
  }

  lemma FindBeforeDot(p: string, c: string)
    ensures Find(p + ("." + c), '.') == Find(p, '.')
  {
    hide Find;
    var s := p + ("." + c);
    assert forall k | 0 <= k < |p| :: s[k] == p[k];
    assert s[|p|] == '.';
    FindIs(s, '.', Find(p, '.'));
  }

  lemma Assoc<T>(a: seq<T>, b: seq<T>, c: seq<T>)
    ensures a + (b + c) == (a + b) + c
  {
  }

  lemma LabelsCut(s: string, i: nat)
    requires i < |s| && i == Find(s, '.')
    ensures Labels(s) == [s[..i]] + Labels(s[i + 1..])
  {
  }

  lemma LabelsOne(s: string)
    requires Find(s, '.') == |s|
    ensures Labels(s) == [s]
  {
  }

  lemma {:induction false} LabelsAppend(p: string, c: string)
    ensures Labels(p + ("." + c)) == Labels(p) + Labels(c)
    decreases |p|
  {
    hide Find, Labels;
    var s := p + ("." + c);
    var i := Find(p, '.');
    FindBeforeDot(p, c);
    LabelsCut(s, i);
    if i == |p| {
      LabelsOne(p);
      assert s[..i] == p && s[i + 1..] == c;
    } else {
      LabelsCut(p, i);
      var rest := p[i + 1..];
      assert s[..i] == p[..i] && s[i + 1..] == rest + ("." + c);
      LabelsAppend(rest, c);
      Assoc([p[..i]], Labels(rest), Labels(c));
    }
  }

  // Names that differ in case only have labels that differ in case only, and the other way round.
  lemma {:induction false} LabelsNoCase(a: string, b: string)
    ensures EqualNoCase(a, b) <==> |Labels(a)| == |Labels(b)| && LabelSuffix(Labels(a), Labels(b))
    decreases |a|
  {
    hide Find, Labels, EqualNoCase, LabelSuffix;
    var i, j := Find(a, '.'), Find(b, '.');
    if EqualNoCase(a, b) { SameDot(a, b); }
    if i == |a| { LabelsOne(a); } else { LabelsCut(a, i); }
    if j == |b| { LabelsOne(b); } else { LabelsCut(b, j); }
    if i == |a| && j == |b| {
      OneLabel(a, b);
    } else if i < |a| && j < |b| {
      LabelsNoCase(a[i + 1..], b[j + 1..]);
      SplitNoCase(a, b, i, j);
      SuffixSplit(a[..i], Labels(a[i + 1..]), b[..j], Labels(b[j + 1..]));
    }
  }

  lemma OneLabel(a: string, b: string)
    ensures LabelSuffix([a], [b]) <==> EqualNoCase(a, b)
  {
    hide EqualNoCase;
    assert LabelSuffix([a], [b]) ==> EqualNoCase([a][0], [b][0]);
  }

  lemma SameDot(a: string, b: string)
    requires EqualNoCase(a, b)
    ensures |a| == |b| && Find(a, '.') == Find(b, '.')
  {
    hide Find;
    var i := Find(b, '.');
    forall k | 0 <= k < |a|
      ensures a[k] == '.' <==> b[k] == '.'
    {
      assert LowerChar(a[k]) == LowerChar(b[k]);
    }
    FindIs(a, '.', i);
  }

  lemma SplitNoCase(a: string, b: string, i: nat, j: nat)
    requires i < |a| && j < |b| && a[i] == '.' && b[j] == '.'
    ensures EqualNoCase(a[..i], b[..j]) && EqualNoCase(a[i + 1..], b[j + 1..]) ==> EqualNoCase(a, b)
    ensures i == j && EqualNoCase(a, b) ==> EqualNoCase(a[..i], b[..j]) && EqualNoCase(a[i + 1..], b[j + 1..])
  {
    if EqualNoCase(a[..i], b[..j]) && EqualNoCase(a[i + 1..], b[j + 1..]) {
      forall k | 0 <= k < |a|
        ensures LowerChar(a[k]) == LowerChar(b[k])
      {
        if k < i {
          assert a[..i][k] == a[k] && b[..i][k] == b[k];
        } else if k > i {
          assert a[i + 1..][k - i - 1] == a[k] && b[i + 1..][k - i - 1] == b[k];
        }
      }
    }
  }

  lemma SuffixSplit(x: string, xs: seq<string>, y: string, ys: seq<string>)
    ensures |xs| == |ys| && LabelSuffix([x] + xs, [y] + ys) <==>
            |xs| == |ys| && EqualNoCase(x, y) && LabelSuffix(xs, ys)
  {
    hide EqualNoCase;
    if |xs| == |ys| {
      if LabelSuffix([x] + xs, [y] + ys) {
        assert ([x] + xs)[0] == x && ([y] + ys)[0] == y;
        forall i | 0 <= i < |ys|
          ensures EqualNoCase(xs[i], ys[i])
        {
          assert ([x] + xs)[i + 1] == xs[i] && ([y] + ys)[i + 1] == ys[i];
        }
      }
    }
  }

  // The name from its k-th label on.
  lemma {:induction false} CutLabels(n: string, k: nat) returns (p: string, t: string)
    requires 0 < k < |Labels(n)|
    ensures n == p + ("." + t) && Labels(t) == Labels(n)[k..]
    decreases k
  {
    hide Find, Labels;
    var i := Find(n, '.');
    if i == |n| { LabelsOne(n); }
    LabelsCut(n, i);
    var first, rest := n[..i], n[i + 1..];
    assert n == first + ("." + rest);
    if k == 1 {
      p, t := first, rest;
    } else {
      var q, u := CutLabels(rest, k - 1);
      p, t := first + ("." + q), u;
      CutFurther(n, first, rest, q, u);
    }
  }

  lemma CutFurther(n: string, first: string, rest: string, q: string, u: string)
    requires n == first + ("." + rest) && rest == q + ("." + u)
    ensures n == first + ("." + q) + ("." + u)
  {
    Assoc(".", q, "." + u);
    Assoc(first, "." + q, "." + u);
  }

  lemma SuffixOfConcat(xs: seq<string>, ys: seq<string>, cs: seq<string>)
    requires |cs| <= |ys|
    ensures LabelSuffix(xs + ys, cs) <==> LabelSuffix(ys, cs)
  {
    hide EqualNoCase;
    var all := xs + ys;
    if LabelSuffix(all, cs) {
      forall i | 0 <= i < |cs|
        ensures EqualNoCase(ys[|ys| - |cs| + i], cs[i])
      {
        assert all[|all| - |cs| + i] == ys[|ys| - |cs| + i];
      }
    }
    if LabelSuffix(ys, cs) {
      forall i | 0 <= i < |cs|
        ensures EqualNoCase(all[|all| - |cs| + i], cs[i])
      {
        assert all[|all| - |cs| + i] == ys[|ys| - |cs| + i];
      }
    }
  }

  // What follows a dot is the constraint, and then the test looks at that dot.
  lemma DotSuffix(n: string, p: string, t: string, c: string)
    requires n == p + ("." + t) && |t| == |c| && Bare(c) == c
    ensures SubtreeMatch(n, c) <==> EqualNoCase(t, c)
  {
    assert n[|n| - |c|..] == t;
  }

  lemma FirstOfSuffix(s: string, c: string)
    requires EndsWithNoCase(s, c) && c != ""
    ensures LowerChar(c[0]) == LowerChar(s[|s| - |c|])
  {
    assert s[|s| - |c|..][0] == s[|s| - |c|];
  }

  // A constraint with a leading dot is matched together with the dot.
  lemma LeadingDot(n: string, c: string)
    requires Bare(c) != c
    ensures SubtreeMatch(n, c) <==> EndsWithNoCase(n, c)
  {
    if EndsWithNoCase(n, c) { FirstOfSuffix(n, c); }
  }

  lemma LeadingDotSuffix(n: string, p: string, t: string, c: string)
    requires n == p + ("." + t) && Bare(c) != c && |t| == |Bare(c)|
    ensures EndsWithNoCase(n, c) <==> EqualNoCase(t, Bare(c))
  {
    hide EqualNoCase, Bare;
    assert n[|n| - |c|..] == "." + t by { assert |c| == 1 + |t| by { DotAndBare(c); } }
    DotAndBare(c);
    AfterTheDot(Bare(c), t);
  }

  lemma DotAndBare(c: string)
    requires Bare(c) != c
    ensures c == "." + Bare(c)
  {
  }

  lemma AfterTheDot(a: string, b: string)
    ensures EqualNoCase("." + a, "." + b) <==> EqualNoCase(b, a)
  {
    if EqualNoCase("." + a, "." + b) {
      forall i | 0 <= i < |b|
        ensures LowerChar(b[i]) == LowerChar(a[i])
      {
        assert ("." + a)[i + 1] == a[i] && ("." + b)[i + 1] == b[i];
      }
    }
  }

  predicate MatchesByLabels(n: string, c: string) {
    LabelSuffix(Labels(n), Labels(Bare(c))) && (Bare(c) != c ==> |Labels(n)| > |Labels(Bare(c))|)
  }

  // The same labels at the end, up to the case of their letters.
  predicate EndsInLabels(name: seq<string>, constraint: seq<string>) {
    |constraint| <= |name| &&
    forall i | 0 <= i < |constraint| :: SameText(name[|name| - |constraint| + i], constraint[i])
  }

  lemma EqualNoCaseMeaning(a: string, b: string)
    ensures EqualNoCase(a, b) <==> SameText(a, b)
  {
    hide LowerChar, SameLetter;
    forall i | 0 <= i < |a| && i < |b|
      ensures LowerChar(a[i]) == LowerChar(b[i]) <==> SameLetter(a[i], b[i])
    {
      LowerCharMeaning(a[i], b[i]);
    }
  }

  lemma LabelSuffixMeaning(name: seq<string>, constraint: seq<string>)
    ensures LabelSuffix(name, constraint) <==> EndsInLabels(name, constraint)
  {
    hide EqualNoCase, SameText;
    forall a: string, b: string
      ensures EqualNoCase(a, b) <==> SameText(a, b)
    {
      EqualNoCaseMeaning(a, b);
    }
  }

  // The test on characters: the name is the constraint with zero or more labels added on the left,
  // at least one if the constraint starts with a dot, without regard to case.
  lemma MatchByLabels(n: string, c: string)
    ensures SubtreeMatch(n, c) <==>
            && EndsInLabels(Labels(n), Labels(Bare(c)))
            && (Bare(c) != c ==> |Labels(n)| > |Labels(Bare(c))|)
  {
    hide Labels, LabelSuffix, EqualNoCase, SubtreeMatch, Bare, EndsInLabels;
    SubtreeMatchLabels(n, c);
    LabelSuffixMeaning(Labels(n), Labels(Bare(c)));
  }

  lemma SubtreeMatchLabels(n: string, c: string)
    ensures SubtreeMatch(n, c) <==> MatchesByLabels(n, c)
  {
    hide Labels, LabelSuffix, EqualNoCase, SubtreeMatch, Bare;
    if SubtreeMatch(n, c) {
      MatchGivesLabels(n, c);
    }
    if MatchesByLabels(n, c) {
      LabelsGiveMatch(n, c);
    }
  }

  lemma LeadingDotHere(n: string, c: string)
    requires SubtreeMatch(n, c) && Bare(c) != c
    ensures |n| >= |c| && n[|n| - |c|] == '.'
  {
    FirstOfSuffix(n, c);
  }

  lemma CutAtDot(n: string, k: nat)
    requires 0 < k <= |n| && n[k - 1] == '.'
    ensures n == n[..k - 1] + ("." + n[k..])
  {
  }

  // Cut a name that matches where the labels of the constraint begin.
  lemma MatchCut(n: string, c: string) returns (p: string, t: string)
    requires SubtreeMatch(n, c) && !(Bare(c) == c && |n| == |c|)
    ensures n == p + ("." + t) && EqualNoCase(t, Bare(c))
  {
    hide EqualNoCase, EndsWithNoCase;
    var k := |n| - |Bare(c)|;
    if Bare(c) != c { LeadingDotHere(n, c); }
    CutAtDot(n, k);
    p, t := n[..k - 1], n[k..];
    if Bare(c) != c {
      LeadingDotSuffix(n, p, t, c);
    } else {
      DotSuffix(n, p, t, c);
    }
  }

  lemma MatchGivesLabels(n: string, c: string)
    requires SubtreeMatch(n, c)
    ensures MatchesByLabels(n, c)
  {
    hide Labels, LabelSuffix, EqualNoCase;
    if Bare(c) == c && |n| == |c| {
      assert n[0..] == n && EndsWithNoCase(n, c);
      SameEitherWay(n, c);
      LabelsNoCase(n, c);
    } else {
      hide SubtreeMatch, Bare;
      var p, t := MatchCut(n, c);
      LabelsNoCase(t, Bare(c));
      LabelsAppend(p, t);
      SuffixOfConcat(Labels(p), Labels(t), Labels(Bare(c)));
    }
  }

  lemma SameEitherWay(a: string, b: string)
    ensures EqualNoCase(a, b) <==> EqualNoCase(b, a)
  {
  }

  lemma LabelsGiveMatch(n: string, c: string)
    requires MatchesByLabels(n, c)
    ensures SubtreeMatch(n, c)
  {
    hide Labels, LabelSuffix, EqualNoCase;
    var e := Bare(c);
    var k := |Labels(n)| - |Labels(e)|;
    assert k >= 0 by { SuffixShorter(Labels(n), Labels(e)); }
    if k == 0 {
      LabelsNoCase(n, c);
      SameEitherWay(n, c);
      assert n[0..] == n;
      SameLength(n, c);
    } else {
      hide SubtreeMatch, Bare;
      var p, t := CutLabels(n, k);
      assert Labels(n) == Labels(n)[..k] + Labels(t);
      SuffixOfConcat(Labels(n)[..k], Labels(t), Labels(e));
      LabelsNoCase(t, e);
      SameLength(t, e);
      if e == c {
        DotSuffix(n, p, t, c);
      } else {
        LeadingDotSuffix(n, p, t, c);
        LeadingDot(n, c);
      }
    }
  }

  lemma SuffixShorter(name: seq<string>, constraint: seq<string>)
    requires LabelSuffix(name, constraint)
    ensures |constraint| <= |name|
  {
  }

  lemma SameLength(a: string, b: string)
    requires EqualNoCase(a, b)
    ensures |a| == |b|
  {
  }

  // ---------- case and the trailing dot ----------

  lemma NoCaseChar(a: char, b: char)
    requires LowerChar(a) == LowerChar(b)
    ensures (a == '.' <==> b == '.') && (a == '*' <==> b == '*')
  {
  }

  lemma NoCaseAt(a: string, b: string, i: nat)
    requires EqualNoCase(a, b) && i < |a|
    ensures |a| == |b| && (a[i] == '.' <==> b[i] == '.') && (a[i] == '*' <==> b[i] == '*')
  {
    NoCaseChar(a[i], b[i]);
  }

  lemma NoCaseSlice(a: string, b: string, lo: nat, hi: nat)
    requires EqualNoCase(a, b) && lo <= hi <= |a|
    ensures |a| == |b| && EqualNoCase(a[lo..hi], b[lo..hi])
  {
  }

  lemma NoCaseBoth(a: string, a': string, b: string, b': string)
    requires EqualNoCase(a, a') && EqualNoCase(b, b')
    ensures EqualNoCase(a, b) <==> EqualNoCase(a', b')
  {
  }

  lemma NoCaseDrop(a: string, b: string)
    requires EqualNoCase(a, b)
    ensures EqualNoCase(DropTrailingDot(a), DropTrailingDot(b)) && (a == "" <==> b == "")
  {
    hide EqualNoCase;
    SameLength(a, b);
    if a != "" {
      NoCaseAt(a, b, |a| - 1);
      NoCaseSlice(a, b, 0, |a| - 1);
      assert a[0..|a| - 1] == a[..|a| - 1] && b[0..|b| - 1] == b[..|b| - 1];
    }
  }

  lemma NoCaseEnds(n: string, m: string, c: string, d: string)
    requires EqualNoCase(n, m) && EqualNoCase(c, d)
    ensures EndsWithNoCase(n, c) <==> EndsWithNoCase(m, d)
  {
    hide EqualNoCase;
    SameLength(n, m);
    SameLength(c, d);
    if |c| <= |n| {
      var k := |n| - |c|;
      NoCaseSlice(n, m, k, |n|);
      assert n[k..|n|] == n[k..] && m[k..|m|] == m[k..];
      NoCaseBoth(c, d, n[k..], m[k..]);
    }
  }

  lemma NoCaseSubtree(n: string, m: string, c: string, d: string)
    requires EqualNoCase(n, m) && EqualNoCase(c, d)
    ensures SubtreeMatch(n, c) <==> SubtreeMatch(m, d)
  {
    hide EqualNoCase, EndsWithNoCase;
    SameLength(n, m);
    SameLength(c, d);
    NoCaseEnds(n, m, c, d);
    if c != "" { NoCaseAt(c, d, 0); }
    var k := |n| - |Bare(c)| - 1;
    if k >= 0 { NoCaseAt(n, m, k); }
  }

  lemma NoCasePartial(n: string, m: string, c: string, d: string)
    requires EqualNoCase(n, m) && EqualNoCase(c, d)
    ensures PartialMatch(n, c) <==> PartialMatch(m, d)
  {
    hide EqualNoCase, Find;
    SameLength(n, m);
    SameDot(c, d);
    var dot := Find(c, '.');
    if |n| > 2 && dot < |c| {
      NoCaseAt(n, m, 0);
      NoCaseAt(n, m, 1);
      NoCaseSlice(n, m, 2, |n|);
      NoCaseSlice(c, d, dot + 1, |c|);
      assert n[2..|n|] == n[2..] && m[2..|m|] == m[2..] && c[dot + 1..|c|] == c[dot + 1..];
      assert d[dot + 1..|d|] == d[dot + 1..];
      NoCaseBoth(n[2..], m[2..], c[dot + 1..], d[dot + 1..]);
    }
  }

  // Neither the case of the name nor that of the constraint matters.
  lemma CaseDoesNotMatter(name: string, name': string, constraint: string, constraint': string, partial: bool)
    requires SameText(name, name') && SameText(constraint, constraint')
    ensures DnsNameMatches(name, constraint, partial) == DnsNameMatches(name', constraint', partial)
  {
    hide EqualNoCase, SameText, SubtreeMatch, PartialMatch, DropTrailingDot;
    EqualNoCaseMeaning(name, name');
    EqualNoCaseMeaning(constraint, constraint');
    NoCaseDrop(name, name');
    NoCaseDrop(constraint, constraint');
    var n, m := DropTrailingDot(name), DropTrailingDot(name');
    var c, d := DropTrailingDot(constraint), DropTrailingDot(constraint');
    NoCaseSubtree(n, m, c, d);
    NoCasePartial(n, m, c, d);
  }

  lemma SameItself(s: string)
    ensures SameText(s, s)
  {
  }

  // A name in capitals is permitted if and only if the name is.
  lemma CapitalsDoNotMatter(nc: Constraints, name: string)
    ensures IsPermitted(nc, Upper(name)) <==> IsPermitted(nc, name)
  {
    hide DnsNameMatches, SameText;
    UpperSame(name);
    forall c: string, p: bool
      ensures DnsNameMatches(Upper(name), c, p) == DnsNameMatches(name, c, p)
    {
      SameItself(c);
      CaseDoesNotMatter(name, Upper(name), c, c, p);
    }
  }

  // The dot at the end of an absolute name or constraint makes no difference.
  lemma TrailingDotDoesNotMatter(name: string, constraint: string, partial: bool)
    requires (name != "" ==> name[|name| - 1] != '.')
    requires constraint != "" && constraint[|constraint| - 1] != '.'
    ensures DnsNameMatches(name + ".", constraint, partial) == DnsNameMatches(name, constraint, partial)
    ensures DnsNameMatches(name, constraint + ".", partial) == DnsNameMatches(name, constraint, partial)
  {
    hide SubtreeMatch, PartialMatch;
    assert (name + ".")[..|name|] == name && (constraint + ".")[..|constraint|] == constraint;
  }

  // The constraint is empty, or the name is in its subtree.
  predicate Within(name: string, constraint: string) {
    constraint == "" ||
    var n, c := Labels(DropTrailingDot(name)), DropTrailingDot(constraint);
    EndsInLabels(n, Labels(Bare(c))) && (Bare(c) != c ==> |n| > |Labels(Bare(c))|)
  }

  // A name that is not a wildcard is permitted if and only if it is in no excluded subtree and, when
  // DNS names are constrained, in some permitted one.
  lemma PermittedByLabels(nc: Constraints, name: string)
    requires !(|name| >= 2 && name[0] == '*' && name[1] == '.')
    ensures IsPermitted(nc, name) <==>
            && (forall i | 0 <= i < |nc.excluded| :: !Within(name, nc.excluded[i]))
            && (nc.permittedPresent ==> exists i | 0 <= i < |nc.permitted| :: Within(name, nc.permitted[i]))
  {
    hide DnsNameMatches, Within;
    forall c: string, p: bool
      ensures DnsNameMatches(name, c, p) <==> Within(name, c)
    {
      MatchIsWithin(name, c, p);
    }
  }

  lemma MatchIsWithin(name: string, constraint: string, partial: bool)
    requires !(|name| >= 2 && name[0] == '*' && name[1] == '.')
    ensures DnsNameMatches(name, constraint, partial) <==> Within(name, constraint)
  {
    hide SubtreeMatch, Labels, EndsInLabels, Bare;
    MatchByLabels(DropTrailingDot(name), DropTrailingDot(constraint));
  }

  // ---------- wildcards and what they stand for ----------

  predicate IsLabel(x: string) { x != "" && '.' !in x }

  predicate IsDomain(d: string) { d != "" && d[|d| - 1] != '.' }

  function Under(x: string, d: string): string { x + ("." + d) }

  lemma UnderFacts(x: string, d: string)
    requires IsLabel(x) && IsDomain(d)
    ensures |Under(x, d)| == |x| + 1 + |d| && DropTrailingDot(Under(x, d)) == Under(x, d)
    ensures forall i | 0 <= i < |x| :: Under(x, d)[i] == x[i]
    ensures Under(x, d)[|x|..] == "." + d
  {
  }

  // A suffix no longer than ".d" is a suffix of every name under d, or of none.
  lemma ShortSuffix(x: string, d: string, c: string)
    requires IsLabel(x) && IsDomain(d) && |c| <= |d| + 1
    ensures EndsWithNoCase(Under(x, d), c) <==> EndsWithNoCase("." + d, c)
  {
    var n, t := Under(x, d), "." + d;
    assert n[|n| - |c|..] == t[|t| - |c|..];
  }

  lemma UnderAt(x: string, d: string, i: nat)
    requires i <= |d|
    ensures Under(x, d)[|x| + i] == ("." + d)[i]
  {
  }

  lemma DotBefore(x: string, d: string, c: string)
    requires |c| <= |d| + 1 && EndsWithNoCase("." + d, c)
    ensures |Bare(c)| <= |d|
    ensures var n, k := Under(x, d), |Bare(c)|; n[|n| - k - 1] == ("." + d)[|d| - k]
  {
    hide EndsWithNoCase;
    if |c| == |d| + 1 { FirstOfSuffix("." + d, c); }
    UnderAt(x, d, |d| - |Bare(c)|);
  }

  // Whether such a constraint matches does not depend on the label.
  lemma ShortMatchIs(x: string, d: string, c: string)
    requires IsLabel(x) && IsDomain(d) && |c| <= |d| + 1
    ensures SubtreeMatch(Under(x, d), c) <==>
            EndsWithNoCase("." + d, c) && |Bare(c)| <= |d| && ("." + d)[|d| - |Bare(c)|] == '.'
  {
    hide Bare, EndsWithNoCase;
    ShortSuffix(x, d, c);
    if EndsWithNoCase("." + d, c) { DotBefore(x, d, c); }
  }

  lemma ShortMatch(x: string, y: string, d: string, c: string)
    requires IsLabel(x) && IsLabel(y) && IsDomain(d) && |c| <= |d| + 1
    ensures SubtreeMatch(Under(x, d), c) <==> SubtreeMatch(Under(y, d), c)
  {
    hide SubtreeMatch, Under, EndsWithNoCase, Bare;
    ShortMatchIs(x, d, c);
    ShortMatchIs(y, d, c);
  }

  // A constraint that reaches into the label matches only the name it spells out.
  lemma LongMatch(x: string, d: string, c: string)
    requires IsLabel(x) && IsDomain(d) && |c| > |d| + 1
    ensures SubtreeMatch(Under(x, d), c) <==> EqualNoCase(Under(x, d), c)
  {
    var n := Under(x, d);
    if |c| == |n| {
      assert n[|n| - |c|..] == n;
    } else if EndsWithNoCase(n, c) {
      var k := |n| - |c|;
      assert n[k..][0] == n[k] == x[k];
      assert LowerChar(c[0]) == LowerChar(x[k]);
      assert n[k - 1] == x[k - 1];
    }
  }

  lemma PartialFromExact(x: string, d: string, c: string)
    requires IsLabel(x) && IsDomain(d) && EqualNoCase(Under(x, d), c)
    ensures PartialMatch(Under("*", d), c)
  {
    hide Find;
    var n, w := Under(x, d), Under("*", d);
    forall i | 0 <= i < |x|
      ensures c[i] != '.'
    {
      assert n[i] == x[i] && LowerChar(n[i]) == LowerChar(c[i]);
    }
    assert n[|x|] == '.' && LowerChar(c[|x|]) == '.';
    FindIs(c, '.', |x|);
    assert w[2..] == d && n[|x| + 1..] == d;
    forall i | 0 <= i < |d|
      ensures LowerChar(d[i]) == LowerChar(c[|x| + 1..][i])
    {
      assert n[|x| + 1 + i] == d[i];
    }
  }

  lemma WildcardLabel(x: string, d: string, c: string)
    requires IsLabel(x) && IsDomain(d) && PartialMatch(Under(x, d), c)
    ensures x == "*"
  {
    var n := Under(x, d);
    assert n[0] == x[0];
  }

  // An exclusion that hits a name hits the wildcard that stands for it.
  lemma ExclusionHitsWildcard(x: string, d: string, constraint: string)
    requires IsLabel(x) && IsDomain(d) && DnsNameMatches(Under(x, d), constraint, true)
    ensures DnsNameMatches(Under("*", d), constraint, true)
  {
    hide SubtreeMatch, PartialMatch, Under;
    var c := DropTrailingDot(constraint);
    UnderFacts(x, d);
    UnderFacts("*", d);
    if constraint != "" {
      if PartialMatch(Under(x, d), c) {
        WildcardLabel(x, d, c);
      } else if |c| <= |d| + 1 {
        ShortMatch(x, "*", d, c);
      } else {
        LongMatch(x, d, c);
        PartialFromExact(x, d, c);
      }
    }
  }

  // The constraint is d or a domain above it.
  predicate Covers(constraint: string, d: string) {
    constraint == "" || LabelSuffix(Labels(d), Labels(Bare(DropTrailingDot(constraint))))
  }

  lemma WildcardLabels(d: string)
    ensures Labels(Under("*", d)) == ["*"] + Labels(d)
  {
    hide Find, Labels;
    LabelsAppend("*", d);
    FindIs("*", '.', 1);
    LabelsOne("*");
  }

  // Such a constraint matches the wildcard, and so does one that spells the wildcard out; no other.
  lemma CoversMeaning(constraint: string, d: string)
    requires IsDomain(d)
    ensures Covers(constraint, d) <==>
            && DnsNameMatches(Under("*", d), constraint, false)
            && !EqualNoCase(Under("*", d), DropTrailingDot(constraint))
  {
    hide SubtreeMatch, Under, Labels, LabelSuffix, Bare, EqualNoCase;
    var n, c := Under("*", d), DropTrailingDot(constraint);
    UnderFacts("*", d);
    if constraint == "" {
      SpelledOutLength(n, c);
    } else {
      SubtreeMatchLabels(n, c);
      WildcardLabels(d);
      if |Labels(Bare(c))| <= |Labels(d)| {
        SuffixOfConcat(["*"], Labels(d), Labels(Bare(c)));
        NotSpelledOut(d, c);
      } else {
        SpelledOut(d, c);
      }
    }
  }

  lemma SpelledOutLength(a: string, b: string)
    requires |a| != |b|
    ensures !EqualNoCase(a, b)
  {
  }

  lemma NotSpelledOut(d: string, c: string)
    requires |Labels(Bare(c))| <= |Labels(d)|
    ensures !EqualNoCase(Under("*", d), c)
  {
    hide Labels, LabelSuffix;
    WildcardLabels(d);
    LabelsNoCase(Under("*", d), c);
    if Bare(c) != c { assert Under("*", d)[0] == '*' && c[0] == '.'; }
  }

  lemma SpelledOut(d: string, c: string)
    requires |Labels(Bare(c))| > |Labels(d)|
    ensures !LabelSuffix(Labels(d), Labels(Bare(c)))
    ensures MatchesByLabels(Under("*", d), c) ==> EqualNoCase(Under("*", d), c)
  {
    hide Labels, EqualNoCase, Bare;
    WildcardLabels(d);
    LabelsNoCase(Under("*", d), c);
  }

  // A permission that covers the wildcard permits every name it stands for.
  lemma PermissionCoversLabels(x: string, d: string, constraint: string)
    requires IsLabel(x) && IsDomain(d) && Covers(constraint, d)
    ensures DnsNameMatches(Under(x, d), constraint, false)
  {
    hide SubtreeMatch, PartialMatch, Under, EqualNoCase, Covers;
    var c := DropTrailingDot(constraint);
    CoversMeaning(constraint, d);
    UnderFacts(x, d);
    UnderFacts("*", d);
    if constraint != "" {
      if |c| <= |d| + 1 {
        ShortMatch("*", x, d, c);
      } else {
        LongMatch("*", d, c);
      }
    }
  }

  // What matches a name with a label longer than the constraint covers the wildcard.
  lemma LongLabelCovered(x: string, d: string, constraint: string)
    requires IsLabel(x) && IsDomain(d) && |x| > |constraint| && DnsNameMatches(Under(x, d), constraint, false)
    ensures Covers(constraint, d)
  {
    hide SubtreeMatch, PartialMatch, Under, Covers;
    var c := DropTrailingDot(constraint);
    CoversMeaning(constraint, d);
    UnderFacts(x, d);
    UnderFacts("*", d);
    if constraint != "" {
      if |c| <= |d| + 1 {
        ShortMatch(x, "*", d, c);
      } else {
        LongMatch(x, d, c);
      }
    }
  }

  function Longest(cs: seq<string>): (n: nat)
    ensures forall i | 0 <= i < |cs| :: |cs[i]| <= n
  {
    if cs == [] then 0
    else
      var n := Longest(cs[..|cs| - 1]);
      if |cs[|cs| - 1]| > n then |cs[|cs| - 1]| else n
  }

  ghost predicate AllPermitted(nc: Constraints, d: string) {
    forall x | IsLabel(x) :: IsPermitted(nc, Under(x, d))
  }

  // ---------- main results ----------

  // Permitting "*.d" permits "x.d" for every label x exactly when DNS names are not constrained
  // or some permitted constraint is d or a domain above it.
  lemma WildcardSafety(nc: Constraints, d: string)
    requires IsDomain(d) && IsPermitted(nc, Under("*", d))
    ensures AllPermitted(nc, d) <==>
            !nc.permittedPresent || exists i | 0 <= i < |nc.permitted| :: Covers(nc.permitted[i], d)
  {
    hide DnsNameMatches, Under, Covers;
    if !nc.permittedPresent || exists i | 0 <= i < |nc.permitted| :: Covers(nc.permitted[i], d) {
      forall x | IsLabel(x)
        ensures IsPermitted(nc, Under(x, d))
      {
        ExpansionPermitted(nc, x, d);
      }
    } else if AllPermitted(nc, d) {
      var x := seq(Longest(nc.permitted) + 1, i => 'a');
      assert IsLabel(x);
      assert IsPermitted(nc, Under(x, d));
      var i :| 0 <= i < |nc.permitted| && DnsNameMatches(Under(x, d), nc.permitted[i], false);
      LongLabelCovered(x, d, nc.permitted[i]);
    }
  }

  lemma ExpansionPermitted(nc: Constraints, x: string, d: string)
    requires IsDomain(d) && IsLabel(x) && IsPermitted(nc, Under("*", d))
    requires !nc.permittedPresent || exists i | 0 <= i < |nc.permitted| :: Covers(nc.permitted[i], d)
    ensures IsPermitted(nc, Under(x, d))
  {
    hide DnsNameMatches, Under, Covers;
    forall i | 0 <= i < |nc.excluded|
      ensures !DnsNameMatches(Under(x, d), nc.excluded[i], true)
    {
      if DnsNameMatches(Under(x, d), nc.excluded[i], true) { ExclusionHitsWildcard(x, d, nc.excluded[i]); }
    }
    if nc.permittedPresent {
      var i :| 0 <= i < |nc.permitted| && Covers(nc.permitted[i], d);
      PermissionCoversLabels(x, d, nc.permitted[i]);
    }
  }

  // Constraints without a '*' never spell a wildcard out, so permitting it is always safe.
  lemma NoStarIsSafe(nc: Constraints, d: string)
    requires IsDomain(d) && IsPermitted(nc, Under("*", d))
    requires forall i | 0 <= i < |nc.permitted| :: '*' !in nc.permitted[i]
    ensures AllPermitted(nc, d)
  {
    hide DnsNameMatches, Covers;
    WildcardSafety(nc, d);
    if nc.permittedPresent {
      var i :| 0 <= i < |nc.permitted| && DnsNameMatches(Under("*", d), nc.permitted[i], false);
      StarSpelled(d, nc.permitted[i]);
      CoversMeaning(nc.permitted[i], d);
      assert Covers(nc.permitted[i], d);
    }
  }

  lemma StarSpelled(d: string, constraint: string)
    requires IsDomain(d) && '*' !in constraint
    ensures !EqualNoCase(Under("*", d), DropTrailingDot(constraint))
  {
    var c := DropTrailingDot(constraint);
    if c != "" { assert c[0] in constraint && Under("*", d)[0] == '*'; }
  }

  // ---------- what the two ways of matching a wildcard mean ----------

  // A label a wildcard can stand for.
  predicate IsExpansion(x: string) { IsLabel(x) && '*' !in x }

  // Full matching, used for permissions: the constraint matches every expansion.
  lemma FullMatchIsAll(d: string, constraint: string)
    requires IsDomain(d) && '*' !in constraint
    ensures DnsNameMatches(Under("*", d), constraint, false) <==>
            forall x | IsExpansion(x) :: DnsNameMatches(Under(x, d), constraint, false)
  {
    hide DnsNameMatches, Under, Covers;
    StarSpelled(d, constraint);
    CoversMeaning(constraint, d);
    if DnsNameMatches(Under("*", d), constraint, false) {
      forall x | IsExpansion(x)
        ensures DnsNameMatches(Under(x, d), constraint, false)
      {
        PermissionCoversLabels(x, d, constraint);
      }
    } else {
      var x := seq(|constraint| + 1, i => 'a');
      assert IsExpansion(x);
      if DnsNameMatches(Under(x, d), constraint, false) { LongLabelCovered(x, d, constraint); }
    }
  }

  // Partial matching, used for exclusions: the constraint matches some expansion.
  lemma PartialMatchIsAny(d: string, constraint: string)
    requires IsDomain(d) && '*' !in constraint
    ensures DnsNameMatches(Under("*", d), constraint, true) <==>
            exists x | IsExpansion(x) :: DnsNameMatches(Under(x, d), constraint, false)
  {
    hide DnsNameMatches, Under;
    if x :| IsExpansion(x) && DnsNameMatches(Under(x, d), constraint, false) {
      FullIsPartial(Under(x, d), constraint);
      ExclusionHitsWildcard(x, d, constraint);
    } else if DnsNameMatches(Under("*", d), constraint, true) {
      var x := SomeExpansion(d, constraint);
      assert DnsNameMatches(Under(x, d), constraint, false);
    }
  }

  lemma FullIsPartial(name: string, constraint: string)
    requires DnsNameMatches(name, constraint, false)
    ensures DnsNameMatches(name, constraint, true)
  {
  }

  lemma SomeExpansion(d: string, constraint: string) returns (x: string)
    requires IsDomain(d) && '*' !in constraint && DnsNameMatches(Under("*", d), constraint, true)
    ensures IsExpansion(x) && DnsNameMatches(Under(x, d), constraint, false)
  {
    hide SubtreeMatch, Under;
    var c := DropTrailingDot(constraint);
    x := "a";
    UnderFacts("*", d);
    UnderFacts("a", d);
    if constraint != "" {
      if SubtreeMatch(Under("*", d), c) {
        FullMatchIsAll(d, constraint);
      } else {
        var dot := Find(c, '.');
        PartialSpells(d, c);
        if dot == 0 {
          DotDomain("a", d, c);
        } else {
          x := c[..dot];
          assert forall k | 0 <= k < dot :: c[k] in constraint;
          UnderFacts(x, d);
          LongMatch(x, d, c);
        }
      }
    }
  }

  lemma PartialSpells(d: string, c: string)
    requires IsDomain(d) && PartialMatch(Under("*", d), c)
    ensures var x := c[..Find(c, '.')]; EqualNoCase(Under(x, d), c) && |c| == |x| + 1 + |d|
  {
    hide Find;
    var dot := Find(c, '.');
    assert Under("*", d)[2..] == d;
    var rest := c[dot + 1..];
    assert c == Under(c[..dot], rest);
    UnderNoCase(c[..dot], d, rest);
  }

  lemma UnderNoCase(x: string, d: string, e: string)
    requires EqualNoCase(d, e)
    ensures EqualNoCase(Under(x, d), Under(x, e))
  {
    var n, m := Under(x, d), Under(x, e);
    forall i | 0 <= i < |n|
      ensures LowerChar(n[i]) == LowerChar(m[i])
    {
      if i > |x| { assert n[i] == d[i - |x| - 1] && m[i] == e[i - |x| - 1]; }
    }
  }

  lemma DotDomain(x: string, d: string, c: string)
    requires EqualNoCase(Under("", d), c) && Bare(c) != c
    ensures SubtreeMatch(Under(x, d), c)
  {
    hide SubtreeMatch;
    var n, t := Under(x, d), Under("", d);
    assert n[|n| - |c|..] == t;
    assert EqualNoCase(c, t);
    LeadingDot(n, c);
  }

  // A permitted constraint that does spell the wildcard out permits nothing else under it.
  lemma SpelledOutIsNotSafe()
    ensures var nc := Constraints(["*.a"], true, []);
            IsPermitted(nc, Under("*", "a")) && !IsPermitted(nc, Under("b", "a"))
  {
    var nc := Constraints(["*.a"], true, []);
    assert Under("*", "a") == "*.a" && Under("b", "a") == "b.a";
    assert "*.a"[0..] == "*.a";
    assert EndsWithNoCase("*.a", "*.a");
    assert DnsNameMatches("*.a", nc.permitted[0], false);
    LongMatch("b", "a", "*.a");
    assert Under("b", "a")[0] == 'b';
  }
}
