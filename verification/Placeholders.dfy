/**
 Renumbering the placeholders of an SMS template: one provider wants `{1}`, `{2}`, ... where the
 template says `${name}`.
 */
module Placeholders {
  import opened GoInt

  // ----- what a placeholder is -----

  /** The whole of `w` matches `\$\{[^}]+\}`. */
  ghost predicate IsPlaceholder(w: string) {
    && |w| >= 4 && w[0] == '$' && w[1] == '{' && w[|w| - 1] == '}'
    && forall k | 2 <= k < |w| - 1 :: w[k] != '}'
  }

  ghost predicate StartsPlaceholder(s: string) {
    exists m | 0 <= m <= |s| :: IsPlaceholder(s[..m])
  }

  ghost predicate HoldsPlaceholder(s: string) {
    exists i | 0 <= i <= |s| :: StartsPlaceholder(s[i..])
  }

  /** How far the first '}' is. */
  function Close(s: string): (r: nat)
    ensures r <= |s|
    ensures forall k | 0 <= k < r :: s[k] != '}'
    ensures r < |s| ==> s[r] == '}'
  {
    if s == "" || s[0] == '}' then 0 else 1 + Close(s[1..])
  }

  /** The length of the match at the front of `s`, 0 if there is none. */
  function MatchLength(s: string): (m: nat)
    ensures m <= |s| && (m > 0 ==> m >= 4)
  {
    if |s| >= 2 && s[0] == '$' && s[1] == '{' then
      var body := Close(s[2..]);
      if body > 0 && 2 + body < |s| then body + 3 else 0
    else
      0
  }

  /** Placeholders at the front have one length only, and the code's match finds it. */
  lemma MatchIsPlaceholder(s: string, m: nat)
    requires m <= |s|
    ensures IsPlaceholder(s[..m]) <==> m > 0 && m == MatchLength(s)
  {
    var w := s[..m];
    if m >= 4 {
      assert forall k | 2 <= k < m :: w[k] == s[2..][k - 2];
      assert forall k | 0 <= k < m - 2 :: s[2..][k] == w[k + 2];
    }
  }

  lemma StartsExactly(s: string)
    ensures StartsPlaceholder(s) <==> MatchLength(s) > 0
  {
    MatchIsPlaceholder(s, MatchLength(s));
    forall m: nat | m <= |s| && IsPlaceholder(s[..m]) ensures MatchLength(s) > 0 { MatchIsPlaceholder(s, m); }
  }

  // ----- the scan -----

  /** A text taken apart: a literal before each match and one after the last. */
  datatype Split = Split(literals: seq<string>, matches: seq<string>)
  {
    predicate Alternates() { |literals| == |matches| + 1 }

    function Rest(): Split
      requires Alternates() && matches != []
    {
      Split(literals[1..], matches[1..])
    }

    /** The literals with `fillers` in the places of the matches. */
    function Filled(fillers: seq<string>): string
      requires Alternates() && |fillers| == |matches|
      decreases |matches|
    {
      if matches == [] then literals[0]
      else literals[0] + (fillers[0] + Rest().Filled(fillers[1..]))
    }

    /** Leftmost and non-overlapping: every match is a placeholder, and none starts in a literal. */
    ghost predicate IsScan()
      requires Alternates()
      decreases |matches|
    {
      && (forall i | 0 <= i < |literals[0]| :: !StartsPlaceholder(Filled(matches)[i..]))
      && (matches != [] ==> IsPlaceholder(matches[0]) && Rest().IsScan())
    }

    /** Some match stands right behind a '$'. */
    predicate DollarBeforeMatch()
      requires Alternates()
    {
      exists k | 0 <= k < |matches| :: literals[k] != "" && literals[k][|literals[k]| - 1] == '$'
    }
  }

  function Scan(s: string): (r: Split)
    ensures r.Alternates()
  {
    if s == "" then Split([""], [])
    else if MatchLength(s) > 0 then
      Prepend(s[..MatchLength(s)], Scan(s[MatchLength(s)..]))
    else
      Lengthen(s[0], Scan(s[1..]))
  }

  /** One more match in front. */
  function Prepend(w: string, rest: Split): (r: Split)
    requires rest.Alternates()
    ensures r.Alternates() && r.literals[0] == "" && r.matches != [] && r.matches[0] == w && r.Rest() == rest
  {
    Split([""] + rest.literals, [w] + rest.matches)
  }

  /** One more character in the first literal. */
  function Lengthen(c: char, rest: Split): (r: Split)
    requires rest.Alternates()
    ensures r.Alternates() && |r.matches| == |rest.matches|
  {
    Split([[c] + rest.literals[0]] + rest.literals[1..], rest.matches)
  }

  lemma PrependFills(w: string, rest: Split, fillers: seq<string>)
    requires rest.Alternates() && |fillers| == |rest.matches| + 1
    ensures Prepend(w, rest).Filled(fillers) == fillers[0] + rest.Filled(fillers[1..])
  {
    hide Prepend;
    var text := fillers[0] + rest.Filled(fillers[1..]);
    assert "" + text == text;
  }

  lemma LengthenFills(c: char, rest: Split, fillers: seq<string>)
    requires rest.Alternates() && |fillers| == |rest.matches|
    ensures Lengthen(c, rest).Filled(fillers) == [c] + rest.Filled(fillers)
  {
    if rest.matches != [] {
      assert Lengthen(c, rest).Rest() == rest.Rest();
      var more := fillers[0] + rest.Rest().Filled(fillers[1..]);
      assert ([c] + rest.literals[0]) + more == [c] + (rest.literals[0] + more);
    }
  }

  /** Putting every match back in its place rebuilds the text. */
  lemma {:induction false} ScanRebuilds(s: string)
    ensures Scan(s).Filled(Scan(s).matches) == s
    decreases |s|
  {
    hide Prepend, Lengthen, MatchLength;
    if s != "" {
      var m := MatchLength(s);
      if m > 0 {
        hide Split.Filled;
        ScanRebuilds(s[m..]);
        PrependFills(s[..m], Scan(s[m..]), Scan(s).matches);
        assert s[..m] + s[m..] == s;
        assert Scan(s).matches[1..] == Scan(s[m..]).matches;
      } else {
        hide Split.Filled;
        ScanRebuilds(s[1..]);
        LengthenFills(s[0], Scan(s[1..]), Scan(s[1..]).matches);
        LengthenKeeps(s[0], Scan(s[1..]));
        assert [s[0]] + s[1..] == s;
      }
    }
  }

  lemma LengthenKeeps(c: char, rest: Split)
    requires rest.Alternates()
    ensures var r := Lengthen(c, rest);
            r.literals[0] == [c] + rest.literals[0] && r.literals[1..] == rest.literals[1..] && r.matches == rest.matches
  {
  }

  lemma {:induction false} ScanIsScan(s: string)
    ensures Scan(s).IsScan()
    decreases |s|
  {
    if s != "" {
      var m, r := MatchLength(s), Scan(s);
      if m > 0 {
        ScanIsScan(s[m..]);
        assert r.Rest() == Scan(s[m..]);
        MatchIsPlaceholder(s, m);
      } else {
        var rest := Scan(s[1..]);
        ScanIsScan(s[1..]);
        ScanRebuilds(s);
        ScanRebuilds(s[1..]);
        StartsExactly(s);
        if rest.matches != [] { assert r.Rest() == rest.Rest(); }
        forall i | 0 <= i < |r.literals[0]| ensures !StartsPlaceholder(s[i..]) {
          if i > 0 { assert s[i..] == s[1..][i - 1..]; } else { assert s[i..] == s; }
        }
      }
    }
  }

  /** There is one way to take a text apart leftmost and without overlap, and the scan finds it. */
  lemma {:induction false} ScanIsUnique(split: Split)
    requires split.Alternates() && split.IsScan()
    ensures split == Scan(split.Filled(split.matches))
    decreases |split.Filled(split.matches)|, |split.matches|
  {
    hide MatchLength, Prepend, Lengthen, Split.Filled;
    var s := split.Filled(split.matches);
    if split.literals[0] != "" {
      var shorter := Shortened(split);
      ShorterScan(split);
      ScanIsUnique(shorter);
    } else if split.matches != [] {
      FirstMatchScanned(split);
      ScanIsUnique(split.Rest());
    } else {
      assert split == Split([""], []);
      NothingToScan();
    }
  }

  lemma NothingToScan()
    ensures Scan(Split([""], []).Filled([])) == Split([""], [])
  {
  }

  lemma FirstMatchScanned(split: Split)
    requires split.Alternates() && split.IsScan() && split.literals[0] == "" && split.matches != []
    ensures split.Rest().IsScan()
    ensures |split.Filled(split.matches)| > |split.Rest().Filled(split.Rest().matches)|
    ensures Scan(split.Rest().Filled(split.Rest().matches)) == split.Rest() ==> Scan(split.Filled(split.matches)) == split
  {
    var w, rest := split.matches[0], split.Rest().Filled(split.Rest().matches);
    var s := split.Filled(split.matches);
    assert split == Prepend(w, split.Rest()) by {
      assert split.literals == [""] + split.literals[1..];
      assert split.matches == [w] + split.matches[1..];
    }
    hide Split.Filled, Prepend, MatchLength;
    PrependFills(w, split.Rest(), split.matches);
    assert s == w + rest;
    assert s[..|w|] == w && s[|w|..] == rest;
    MatchIsPlaceholder(s, |w|);
  }

  function Shortened(split: Split): (r: Split)
    requires split.Alternates() && split.literals[0] != ""
    ensures r.Alternates() && split == Lengthen(split.literals[0][0], r)
  {
    var first := split.literals[0];
    assert first == [first[0]] + first[1..];
    Split([first[1..]] + split.literals[1..], split.matches)
  }

  lemma ShorterScan(split: Split)
    requires split.Alternates() && split.IsScan() && split.literals[0] != ""
    ensures Shortened(split).IsScan()
    ensures split.Filled(split.matches) == [split.literals[0][0]] + Shortened(split).Filled(split.matches)
    ensures MatchLength(split.Filled(split.matches)) == 0
  {
    hide Lengthen, MatchLength;
    var s, shorter := split.Filled(split.matches), Shortened(split);
    LengthenFills(split.literals[0][0], shorter, split.matches);
    assert s[0..] == s && s[1..] == shorter.Filled(split.matches);
    StartsExactly(s);
    if split.matches != [] { assert shorter.Rest() == split.Rest(); }
    forall i | 0 <= i < |shorter.literals[0]| ensures !StartsPlaceholder(s[1..][i..]) {
      assert s[1..][i..] == s[i + 1..];
    }
  }

  // ----- the replacement -----

  function Marker(k: nat): string { "{" + Decimal(k) + "}" }

  /** A marker is digits in braces that read back as its number. */
  lemma MarkerReads(k: nat)
    ensures var w := Marker(k);
            && |w| > 2 && w[0] == '{' && w[|w| - 1] == '}'
            && Digits(w[1..|w| - 1]) && Parse(w[1..|w| - 1]) == k
  {
    DecimalParses(k);
    assert Marker(k)[1..|Marker(k)| - 1] == Decimal(k);
  }

  /** `{from}`, `{from + 1}`, ... */
  function Markers(from: nat, n: nat): (r: seq<string>)
    ensures |r| == n
    ensures forall k | 0 <= k < n :: r[k] == Marker(from + k)
  {
    seq(n, k requires 0 <= k => Marker(from + k))
  }

  /** What is written for `s` when the next number is `next`. */
  function Renumbered(s: string, next: nat): string {
    if s == "" then ""
    else if MatchLength(s) > 0 then Marker(next) + Renumbered(s[MatchLength(s)..], next + 1)
    else [s[0]] + Renumbered(s[1..], next)
  }

  /** The literals stay as they are and the matches are numbered in order. */
  lemma {:induction false} RenumberedFills(s: string, next: nat)
    ensures Renumbered(s, next) == Scan(s).Filled(Markers(next, |Scan(s).matches|))
    decreases |s|
  {
    if s != "" {
      var m, r := MatchLength(s), Scan(s);
      if m > 0 {
        RenumberedFills(s[m..], next + 1);
        assert r.Rest() == Scan(s[m..]);
        assert Markers(next, |r.matches|)[1..] == Markers(next + 1, |r.matches| - 1);
      } else {
        RenumberedFills(s[1..], next);
        LengthenFills(s[0], Scan(s[1..]), Markers(next, |r.matches|));
      }
    }
  }

  /** However a text is taken apart leftmost and without overlap, its matches are numbered in order. */
  lemma NumberedInOrder(split: Split, next: nat)
    requires split.Alternates() && split.IsScan()
    ensures Renumbered(split.Filled(split.matches), next) == split.Filled(Markers(next, |split.matches|))
  {
    hide *;
    ScanIsUnique(split);
    RenumberedFills(split.Filled(split.matches), next);
  }

  lemma RenumberedStep(s: string, i: nat, next: nat)
    requires i < |s|
    ensures var m := MatchLength(s[i..]);
            Renumbered(s[i..], next) == if m > 0 then Marker(next) + Renumbered(s[i + m..], next + 1)
                                        else [s[i]] + Renumbered(s[i + 1..], next)
  {
    var m := MatchLength(s[i..]);
    assert s[i..][m..] == s[i + m..] && s[i..][1..] == s[i + 1..];
  }

  /** `replacePlaceholders`: the scan with the counter its callback captures. */
  method ReplacePlaceholders(content: string, providerName: string) returns (output: string)
    ensures providerName != "tencentcloud" ==> output == content
    ensures providerName == "tencentcloud"
        ==> forall split: Split | split.Alternates() && split.IsScan() && split.Filled(split.matches) == content
              :: output == split.Filled(Markers(1, |split.matches|))
    ensures providerName == "tencentcloud" ==> output == Renumbered(content, 1)
  {
    hide *;
    if providerName != "tencentcloud" { return content; }
    var counter, i := 0, 0;
    output := "";
    assert content[0..] == content;
    while i < |content|
      invariant 0 <= i <= |content| && counter >= 0
      invariant output + Renumbered(content[i..], counter + 1) == Renumbered(content, 1)
    {
      RenumberedStep(content, i, counter + 1);
      var m := MatchLength(content[i..]);
      if m > 0 {
        counter := counter + 1;
        output, i := output + Marker(counter), i + m;
      } else {
        output, i := output + [content[i]], i + 1;
      }
    }
    RenumberedEnd(counter + 1);
    assert content[i..] == "" && output + "" == output;
    forall split: Split | split.Alternates() && split.IsScan() && split.Filled(split.matches) == content
      ensures output == split.Filled(Markers(1, |split.matches|))
    {
      NumberedInOrder(split, 1);
    }
  }

  lemma RenumberedEnd(next: nat)
    ensures Renumbered("", next) == ""
  {
  }

  // ----- what is left after the replacement -----

  lemma HoldsStep(c: char, s: string)
    ensures HoldsPlaceholder([c] + s) <==> StartsPlaceholder([c] + s) || HoldsPlaceholder(s)
  {
    var t := [c] + s;
    assert t[0..] == t;
    forall i | 0 <= i <= |s| ensures t[i + 1..] == s[i..] { }
    if i :| 0 <= i <= |t| && StartsPlaceholder(t[i..]) {
      if i > 0 { assert t[i..] == s[i - 1..]; }
    }
    if i :| 0 <= i <= |s| && StartsPlaceholder(s[i..]) {
      assert StartsPlaceholder(t[i + 1..]);
    }
  }

  lemma {:induction false} NoDollarHolds(w: string, s: string)
    requires '$' !in w
    ensures HoldsPlaceholder(w + s) <==> HoldsPlaceholder(s)
  {
    if w == "" {
      assert w + s == s;
    } else {
      assert w + s == [w[0]] + (w[1..] + s);
      StartsExactly(w + s);
      HoldsStep(w[0], w[1..] + s);
      NoDollarHolds(w[1..], s);
    }
  }

  lemma {:induction false} NoCloseIsKept(s: string, next: nat)
    requires '}' !in s
    ensures Renumbered(s, next) == s
    decreases |s|
  {
    if s != "" { NoCloseIsKept(s[1..], next); }
  }

  lemma DollarStep(c: char, rest: Split)
    requires rest.Alternates()
    ensures Lengthen(c, rest).DollarBeforeMatch()
        <==> rest.DollarBeforeMatch() || (c == '$' && rest.literals[0] == "" && rest.matches != [])
  {
    var r := Lengthen(c, rest);
    assert r.literals[0] == [c] + rest.literals[0];
    assert forall k | 0 < k < |r.literals| :: r.literals[k] == rest.literals[k];
  }

  /** A character that is copied comes to start a placeholder exactly if it is a '$' before a match. */
  lemma CopiedStarts(s: string, next: nat)
    requires s != "" && MatchLength(s) == 0
    ensures MatchLength(Renumbered(s, next)) > 0 <==> s[0] == '$' && MatchLength(s[1..]) > 0
  {
    var t := Renumbered(s, next);
    var u := Renumbered(s[1..], next);
    assert t == [s[0]] + u;
    if s[0] == '$' && |s| > 1 {
      if MatchLength(s[1..]) > 0 {
        MarkerClosed(next, Renumbered(s[1..][MatchLength(s[1..])..], next + 1));
        assert t[1..] == u;
      } else if s[1] == '{' {
        var v := Renumbered(s[2..], next);
        assert s[1..][1..] == s[2..] && u == ['{'] + v && t[2..] == v;
        if '}' !in s[2..] { NoCloseIsKept(s[2..], next); } else { assert s[2] == '}'; }
      }
    }
  }

  lemma MarkerClosed(k: nat, rest: string)
    ensures MatchLength("$" + (Marker(k) + rest)) > 0
  {
    var t := "$" + (Marker(k) + rest);
    assert t == ("$" + "{") + (Decimal(k) + ("}" + rest));
    var u := Decimal(k) + ("}" + rest);
    assert t[2..] == u;
    assert u[0] == Decimal(k)[0] && Decimal(k)[0] in Decimal(k);
    assert u[|Decimal(k)|] == '}';
  }

  /** The output holds a placeholder again if and only if some match stood right behind a '$':
      `$${a}` becomes `${1}`. */
  lemma {:induction false} PlaceholderLeftExactly(s: string, next: nat)
    ensures HoldsPlaceholder(Renumbered(s, next)) <==> Scan(s).DollarBeforeMatch()
    decreases |s|
  {
    hide HoldsPlaceholder, Split.DollarBeforeMatch, Decimal, MatchLength;
    if s == "" {
      EmptyHoldsNone();
    } else if MatchLength(s) > 0 {
      var m := MatchLength(s);
      PlaceholderLeftExactly(s[m..], next + 1);
      NoDollarHolds(Marker(next), Renumbered(s[m..], next + 1));
      DollarSkips(s[..m], Scan(s[m..]));
    } else {
      PlaceholderLeftExactly(s[1..], next);
      HoldsStep(s[0], Renumbered(s[1..], next));
      StartsExactly(Renumbered(s, next));
      CopiedStarts(s, next);
      DollarStep(s[0], Scan(s[1..]));
      ScanStartsWithMatch(s[1..]);
    }
  }

  lemma EmptyHoldsNone()
    ensures !HoldsPlaceholder("") && !Scan("").DollarBeforeMatch()
  {
  }

  lemma DollarSkips(w: string, rest: Split)
    requires rest.Alternates()
    ensures Prepend(w, rest).DollarBeforeMatch() <==> rest.DollarBeforeMatch()
  {
    var r := Prepend(w, rest);
    assert forall k | 0 < k < |r.literals| :: r.literals[k] == rest.literals[k - 1];
    assert forall k | 0 <= k < |rest.literals| :: rest.literals[k] == r.literals[k + 1];
  }

  lemma ScanStartsWithMatch(s: string)
    ensures MatchLength(s) > 0 <==> Scan(s).literals[0] == "" && Scan(s).matches != []
  {
  }

  /** A second pass changes nothing if and only if no match stood right behind a '$'. */
  lemma SecondPassIsIdleExactly(s: string)
    ensures Renumbered(Renumbered(s, 1), 1) == Renumbered(s, 1) <==> !Scan(s).DollarBeforeMatch()
  {
    PlaceholderLeftExactly(s, 1);
    if Scan(s).DollarBeforeMatch() {
      SomethingToReplace(Renumbered(s, 1), 1);
    } else {
      NothingToReplace(Renumbered(s, 1), 1);
    }
  }

  /** The first match starts with '$', what is written for it does not. */
  lemma {:induction false} SomethingToReplace(s: string, next: nat)
    requires HoldsPlaceholder(s)
    ensures Renumbered(s, next) != s
    decreases |s|
  {
    hide HoldsPlaceholder;
    if s == "" {
      EmptyHoldsNone();
    } else if MatchLength(s) > 0 {
      assert Renumbered(s, next)[0] == '{';
    } else {
      assert s == [s[0]] + s[1..];
      HoldsStep(s[0], s[1..]);
      StartsExactly(s);
      SomethingToReplace(s[1..], next);
      assert Renumbered(s, next)[1..] == Renumbered(s[1..], next);
    }
  }

  lemma {:induction false} NothingToReplace(s: string, next: nat)
    requires !HoldsPlaceholder(s)
    ensures Renumbered(s, next) == s
    decreases |s|
  {
    if s != "" {
      assert s == [s[0]] + s[1..];
      HoldsStep(s[0], s[1..]);
      StartsExactly(s);
      NothingToReplace(s[1..], next);
    }
  }
}
