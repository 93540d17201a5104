/**
 The VM-name sanitiser: turns an arbitrary string into a valid label
 (`Labels.IsLabel`). Each step of the source's straight-line chain is one
 function below, and `Sanitize` composes them in the source's order.
 */
module Sanitizer {
  import opened Labels

  // ---------------------------------------------------------------------
  // Step 1: lower-case (ASCII only: A-Z become a-z, all else is kept)
  // ---------------------------------------------------------------------

  function LowerChar(c: char): (r: char)
    ensures !IsUpper(r)
    ensures IsUpper(c) || r == c
    ensures IsUpper(c) ==> r as int == c as int - 'A' as int + 'a' as int
    ensures IsLower(r) <==> IsLower(c) || IsUpper(c)
  {
    if IsUpper(c) then (c as int - 'A' as int + 'a' as int) as char else c
  }

  /** Lower-cases `s` character by character; the length never changes. */
  function Lower(s: string): (r: string)
    ensures |r| == |s|
    ensures forall i :: 0 <= i < |s| ==> r[i] == LowerChar(s[i])
    ensures forall i :: 0 <= i < |r| ==> !IsUpper(r[i])
  {
    seq(|s|, i requires 0 <= i < |s| => LowerChar(s[i]))
  }

  /** Lower-casing leaves `s` alone exactly when `s` has no upper-case letter. */
  lemma LowerFixedIff(s: string)
    ensures Lower(s) == s <==> forall i :: 0 <= i < |s| ==> !IsUpper(s[i])
  {
    if forall i :: 0 <= i < |s| ==> !IsUpper(s[i]) {
      assert forall i :: 0 <= i < |s| ==> Lower(s)[i] == s[i];
    }
  }

  lemma LowerIdempotent(s: string)
    ensures Lower(Lower(s)) == Lower(s)
  {
    LowerFixedIff(Lower(s));
  }

  // ---------------------------------------------------------------------
  // Step 2: every character outside [a-z0-9-] becomes '-'
  // ---------------------------------------------------------------------

  function ReplaceInvalid(s: string): (r: string)
    ensures |r| == |s|
    ensures AllLabelChars(r)
    ensures forall i :: 0 <= i < |s| ==> r[i] == (if IsLabelChar(s[i]) then s[i] else '-')
  {
    seq(|s|, i requires 0 <= i < |s| => if IsLabelChar(s[i]) then s[i] else '-')
  }

  /** The replacement leaves `s` alone exactly when `s` is already over `[a-z0-9-]`. */
  lemma ReplaceInvalidFixedIff(s: string)
    ensures ReplaceInvalid(s) == s <==> AllLabelChars(s)
  {
    if AllLabelChars(s) {
      assert forall i :: 0 <= i < |s| ==> ReplaceInvalid(s)[i] == s[i];
    }
  }

  // ---------------------------------------------------------------------
  // Step 3: every run of two or more hyphens becomes a single hyphen
  // ---------------------------------------------------------------------

  /**
   Drops each hyphen that is followed by another hyphen, which leaves one
   hyphen (the last) of every run. The first and last characters survive.
   */
  function Collapse(s: string): (r: string)
    ensures |r| <= |s|
    ensures r == [] <==> s == []
    ensures s != [] ==> r[0] == s[0] && r[|r| - 1] == s[|s| - 1]
    ensures NoDoubleHyphen(r)
    ensures AllLabelChars(s) ==> AllLabelChars(r)
    ensures AllHyphens(s) ==> AllHyphens(r)
  {
    if |s| < 2 then s
    else if s[0] == '-' && s[1] == '-' then Collapse(s[1..])
    else [s[0]] + Collapse(s[1..])
  }

  /** A string with no `--` is left alone by collapsing. */
  lemma {:induction false} CollapseNoDouble(s: string)
    requires NoDoubleHyphen(s)
    ensures Collapse(s) == s
  {
    if |s| >= 2 {
      assert NoDoubleHyphen(s[1..]) by {
        forall i | 0 < i < |s[1..]| ensures s[1..][i - 1] != '-' || s[1..][i] != '-' {
          assert s[1..][i - 1] == s[i] && s[1..][i] == s[i + 1];
        }
      }
      CollapseNoDouble(s[1..]);
      assert s == [s[0]] + s[1..];
    }
  }

  /** A string with a `--` gets strictly shorter by collapsing. */
  lemma {:induction false} CollapseShortens(s: string)
    requires !NoDoubleHyphen(s)
    ensures |Collapse(s)| < |s|
  {
    var i :| 0 < i < |s| && s[i - 1] == '-' && s[i] == '-';
    if i > 1 && !(s[0] == '-' && s[1] == '-') {
      assert s[1..][i - 2] == '-' && s[1..][i - 1] == '-';
      CollapseShortens(s[1..]);
    }
  }

  /** Collapsing changes nothing exactly when there is no `--` to collapse. */
  lemma CollapseFixedIff(s: string)
    ensures Collapse(s) == s <==> NoDoubleHyphen(s)
  {
    if NoDoubleHyphen(s) {
      CollapseNoDouble(s);
    } else {
      CollapseShortens(s);
    }
  }

  /** A run of `n` hyphens. */
  function Hyphens(n: nat): (h: string)
    ensures |h| == n && AllHyphens(h)
  {
    seq(n, i => '-')
  }

  /** A `--` anywhere collapses exactly as a single `-` would. */
  lemma {:induction false} CollapseMergesPair(x: string, y: string)
    ensures Collapse(x + "--" + y) == Collapse(x + "-" + y)
  {
    var a, b := x + "--" + y, x + "-" + y;
    if x == [] {
      assert a[1..] == b;
    } else {
      assert a[1..] == x[1..] + "--" + y;
      assert b[1..] == x[1..] + "-" + y;
      assert a[0] == b[0] == x[0];
      assert a[1] == b[1];
      CollapseMergesPair(x[1..], y);
      assert Collapse(a[1..]) == Collapse(b[1..]);
    }
  }

  /** A run of one or more hyphens collapses exactly as a single `-` would. */
  lemma {:induction false} CollapseRun(x: string, n: nat, y: string)
    requires n >= 1
    ensures Collapse(x + Hyphens(n) + y) == Collapse(x + "-" + y)
  {
    if n > 1 {
      var h := Hyphens(n - 2) + y;
      assert x + Hyphens(n) + y == x + "--" + h by {
        assert Hyphens(n) == "--" + Hyphens(n - 2);
      }
      assert x + Hyphens(n - 1) + y == x + "-" + h by {
        assert Hyphens(n - 1) == "-" + Hyphens(n - 2);
      }
      CollapseMergesPair(x, h);
      CollapseRun(x, n - 1, y);
    } else {
      assert Hyphens(1) == "-";
    }
  }

  /** Two strings without `--` joined where at most one side has a hyphen have no `--`. */
  lemma NoDoubleJoin(u: string, v: string)
    requires NoDoubleHyphen(u) && NoDoubleHyphen(v)
    requires u == [] || v == [] || u[|u| - 1] != '-' || v[0] != '-'
    ensures NoDoubleHyphen(u + v)
  {
    var s := u + v;
    forall i | 0 < i < |s| ensures s[i - 1] != '-' || s[i] != '-' {
      if i < |u| {
        assert s[i - 1] == u[i - 1] && s[i] == u[i];
      } else if i == |u| {
        assert s[i - 1] == u[|u| - 1] && s[i] == v[0];
      } else {
        assert s[i - 1] == v[i - 1 - |u|] && s[i] == v[i - |u|];
      }
    }
  }

  /**
   Between two pieces that have no `--` and no hyphen where they meet the
   run, a run of one or more hyphens becomes exactly one hyphen.
   */
  lemma CollapseRunToOne(x: string, n: nat, y: string)
    requires n >= 1
    requires NoDoubleHyphen(x) && NoDoubleHyphen(y)
    requires x == [] || x[|x| - 1] != '-'
    requires y == [] || y[0] != '-'
    ensures Collapse(x + Hyphens(n) + y) == x + "-" + y
  {
    CollapseRun(x, n, y);
    NoDoubleJoin(x, "-");
    var xh := x + "-";
    assert xh[|xh| - 1] == '-';
    NoDoubleJoin(xh, y);
    CollapseNoDouble(xh + y);
  }

  /** `a--b` becomes `a-b`: the run keeps one hyphen, not none. */
  lemma CollapseExample()
    ensures Collapse("a--b") == "a-b"
  {
    CollapseRunToOne("a", 2, "b");
    assert "a" + Hyphens(2) + "b" == "a--b";
  }

  /** `s` with every hyphen removed. */
  function DropHyphens(s: string): string {
    if s == [] then []
    else if s[0] == '-' then DropHyphens(s[1..])
    else [s[0]] + DropHyphens(s[1..])
  }

  /** Collapsing only removes hyphens: every other character survives, in order. */
  lemma {:induction false} CollapseKeepsNonHyphens(s: string)
    ensures DropHyphens(Collapse(s)) == DropHyphens(s)
  {
    if |s| >= 2 {
      CollapseKeepsNonHyphens(s[1..]);
      if !(s[0] == '-' && s[1] == '-') {
        var t := [s[0]] + Collapse(s[1..]);
        assert t[0] == s[0] && t[1..] == Collapse(s[1..]);
      }
    }
  }

  // ---------------------------------------------------------------------
  // Step 4: strip leading and trailing hyphens
  // ---------------------------------------------------------------------

  /** The longest suffix of `s` that does not start with a hyphen. */
  function StripLeading(s: string): (r: string)
    ensures |r| <= |s| && r == s[|s| - |r|..]
    ensures AllHyphens(s[..|s| - |r|])
    ensures r == [] || r[0] != '-'
  {
    if s != [] && s[0] == '-' then StripLeading(s[1..]) else s
  }

  /** The longest prefix of `s` that does not end with a hyphen. */
  function StripTrailing(s: string): (r: string)
    ensures |r| <= |s| && r == s[..|r|]
    ensures AllHyphens(s[|r|..])
    ensures r == [] || r[|r| - 1] != '-'
  {
    if s != [] && s[|s| - 1] == '-' then
      var t := s[..|s| - 1];
      var r := StripTrailing(t);
      assert s[|r|..] == t[|r|..] + [s[|s| - 1]];
      r
    else s
  }

  /** Any slice of `s` keeps the character-level properties of `s`. */
  lemma SliceKeeps(s: string, i: nat, j: nat)
    requires i <= j <= |s|
    ensures AllLabelChars(s) ==> AllLabelChars(s[i..j])
    ensures AllHyphens(s) ==> AllHyphens(s[i..j])
    ensures NoDoubleHyphen(s) ==> NoDoubleHyphen(s[i..j])
  {
    var t := s[i..j];
    assert forall k :: 0 <= k < |t| ==> t[k] == s[i + k];
  }

  /** Stripping a string with no hyphen at either end leaves it alone. */
  lemma StripEdgeFree(s: string)
    ensures NoEdgeHyphen(s) ==> StripTrailing(StripLeading(s)) == s
  {
    if s != [] && NoEdgeHyphen(s) {
      assert StripLeading(s) == s;
    }
  }

  /** Stripping leaves nothing exactly when there are only hyphens. */
  lemma StripEmptyIff(s: string)
    ensures AllHyphens(s) <==> StripTrailing(StripLeading(s)) == []
  {
    var lead := StripLeading(s);
    var k := |s| - |lead|;
    if StripTrailing(lead) == [] {
      assert AllHyphens(lead) by { assert lead == lead[0..]; }
      assert s == s[..k];
    }
  }

  /** Stripping both ends leaves no hyphen at either end. */
  lemma StripEdges(s: string)
    ensures NoEdgeHyphen(StripTrailing(StripLeading(s)))
  {
    var lead := StripLeading(s);
    var r := StripTrailing(lead);
    assert r != [] ==> r[0] == lead[0];
  }

  /** What stripping both ends leaves is a slice of `s`. */
  lemma StripSlice(s: string)
    ensures var i := |s| - |StripLeading(s)|;
      StripTrailing(StripLeading(s)) == s[i..i + |StripTrailing(StripLeading(s))|]
  {
  }

  /** Hyphens at both ends removed, as `str.strip("-")` does. */
  function Strip(s: string): (r: string)
    ensures NoEdgeHyphen(r)
    ensures AllHyphens(s) <==> r == []
    ensures NoEdgeHyphen(s) ==> r == s
    ensures AllLabelChars(s) ==> AllLabelChars(r)
    ensures NoDoubleHyphen(s) ==> NoDoubleHyphen(r)
  {
    StripEdges(s);
    StripEmptyIff(s);
    StripEdgeFree(s);
    StripSlice(s);
    var i := |s| - |StripLeading(s)|;
    var r := StripTrailing(StripLeading(s));
    SliceKeeps(s, i, i + |r|);
    r
  }

  // ---------------------------------------------------------------------
  // The whole sanitiser
  // ---------------------------------------------------------------------

  /** Over `[a-z0-9-]`, no `--`, and no hyphen at either end. */
  predicate Tidy(s: string) {
    AllLabelChars(s) && NoDoubleHyphen(s) && NoEdgeHyphen(s)
  }

  /** Lower-cases, replaces, collapses and strips: lines 21-23 of `sanitize`. */
  function Tidied(name: string): (r: string)
    ensures Tidy(r)
  {
    Strip(Collapse(ReplaceInvalid(Lower(name))))
  }

  /** Non-empty, over `[a-z0-9-]`, no `--`, and starting with a letter. */
  predicate Headed(s: string) {
    s != [] && IsLower(s[0]) && AllLabelChars(s) && NoDoubleHyphen(s)
  }

  /** An empty tidy name becomes `wp`; any other is kept. */
  function DefaultName(t: string): (r: string)
    requires Tidy(t)
    ensures Tidy(r) && r != []
    ensures t != [] ==> r == t
  {
    if t == [] then "wp" else t
  }

  /** A `w` goes in front of a non-empty tidy name that does not start with a letter. */
  function LetterFirst(n: string): (r: string)
    requires Tidy(n) && n != []
    ensures Headed(r) && IsAlnum(r[|r| - 1])
    ensures IsLower(n[0]) ==> r == n
    ensures !IsLower(n[0]) ==> r == "w" + n && IsDigit(n[0])
  {
    if IsLower(n[0]) then n
    else
      var r := "w" + n;
      assert forall i :: 1 <= i < |r| ==> r[i] == n[i - 1];
      r
  }

  /** At most the first 63 characters are kept. */
  function Cut(l: string): (r: string)
    requires Headed(l)
    ensures Headed(r)
    ensures |r| == if |l| <= MaxLabelLength then |l| else MaxLabelLength
    ensures r == l[..|r|]
  {
    if |l| > MaxLabelLength then l[..MaxLabelLength] else l
  }

  /** A last character outside `[a-z0-9]` is replaced with `0`. */
  function PatchEnd(c: string): (r: string)
    requires Headed(c) && |c| <= MaxLabelLength
    ensures IsLabel(r)
    ensures |r| == |c| && r[..|c| - 1] == c[..|c| - 1]
    ensures IsAlnum(c[|c| - 1]) ==> r == c
    ensures !IsAlnum(c[|c| - 1]) ==> r[|r| - 1] == '0'
  {
    if IsAlnum(c[|c| - 1]) then c
    else
      var r := c[..|c| - 1] + "0";
      assert r[..|c| - 1] == c[..|c| - 1];
      assert forall i :: 0 <= i < |c| - 1 ==> r[i] == c[i];
      r
  }

  /**
   The last four steps: the `wp` default, the leading `w`, the cut to 63
   characters and the `0` patch. From a tidy string they give a valid label.
   */
  function Finish(t: string): (r: string)
    requires Tidy(t)
    ensures IsLabel(r)
  {
    PatchEnd(Cut(LetterFirst(DefaultName(t))))
  }

  /** The sanitiser: its result is always a valid label. */
  function Sanitize(name: string): (r: string)
    ensures IsLabel(r)
  {
    Finish(Tidied(name))
  }

  // ---------------------------------------------------------------------
  // Properties
  // ---------------------------------------------------------------------

  /** The first four steps leave a tidy string alone. */
  lemma TidiedTidy(s: string)
    requires Tidy(s)
    ensures Tidied(s) == s
  {
    assert Lower(s) == s by { LowerFixedIff(s); }
    assert ReplaceInvalid(s) == s by { ReplaceInvalidFixedIff(s); }
    assert Collapse(s) == s by { CollapseNoDouble(s); }
  }

  /** The last four steps leave a valid label alone. */
  lemma FinishLabel(s: string)
    requires IsLabel(s)
    ensures Tidy(s) && Finish(s) == s
  {
  }

  /** A name that is already a valid label is returned unchanged, and only such a name. */
  lemma SanitizeFixedIff(s: string)
    ensures Sanitize(s) == s <==> IsLabel(s)
  {
    if IsLabel(s) {
      FinishLabel(s);
      TidiedTidy(s);
    }
  }

  /** Sanitising twice is the same as sanitising once. */
  lemma SanitizeIdempotent(s: string)
    ensures Sanitize(Sanitize(s)) == Sanitize(s)
  {
    SanitizeFixedIff(Sanitize(s));
  }

  /** Upper case in the input makes no difference. */
  lemma SanitizeIgnoresCase(s: string)
    ensures Sanitize(Lower(s)) == Sanitize(s)
  {
    LowerIdempotent(s);
  }

  /** An input none of whose characters lower-cases into `[a-z0-9]`, the empty one included, yields `wp`. */
  lemma SanitizeNoAlnumIsDefault(s: string)
    requires forall i :: 0 <= i < |s| ==> !IsAlnum(LowerChar(s[i]))
    ensures Sanitize(s) == "wp"
  {
    var replaced := ReplaceInvalid(Lower(s));
    assert AllHyphens(replaced);
    assert Tidied(s) == [];
  }

  /** An all-digit input of at most 62 characters only gains a leading `w`. */
  lemma SanitizeDigits(s: string)
    requires 1 <= |s| < MaxLabelLength
    requires AllDigits(s)
    ensures Sanitize(s) == "w" + s
  {
    assert Tidy(s);
    assert Tidied(s) == s by { TidiedTidy(s); }
    assert LetterFirst(DefaultName(s)) == "w" + s;
  }

  /** The empty name gives the default of line 24; a digit-leading name gains the `w` of line 25. */
  lemma SanitizeExamples()
    ensures Sanitize("") == "wp"
    ensures Sanitize("123") == "w123"
  {
    SanitizeNoAlnumIsDefault("");
    SanitizeDigits("123");
  }

  /** A name longer than 63 characters once tidied is cut to exactly 63. */
  lemma SanitizeCutsLongNames(s: string)
    requires |Tidied(s)| >= MaxLabelLength
    ensures |Sanitize(s)| == MaxLabelLength
  {
  }

  /** Tidying anything that starts with `wp-` leaves `wp` at the front. */
  lemma TidiedKeepsWp(x: string)
    ensures |Tidied("wp-" + x)| >= 2 && Tidied("wp-" + x)[..2] == "wp"
  {
    var s := "wp-" + x;
    var replaced := ReplaceInvalid(Lower(s));
    assert replaced[0] == 'w' && replaced[1] == 'p' && replaced[2] == '-';
    var collapsed := Collapse(replaced);
    assert collapsed == [replaced[0]] + Collapse(replaced[1..]);
    assert collapsed[0] == 'w' && collapsed[1] == 'p';
    var lead := StripLeading(collapsed);
    assert lead == collapsed;
    var t := StripTrailing(lead);
    assert |t| >= 2;
    assert t[0] == 'w' && t[1] == 'p';
  }

  /** The last four steps keep a leading `wp`. */
  lemma FinishKeepsWp(t: string)
    requires Tidy(t) && |t| >= 2 && t[..2] == "wp"
    ensures |Finish(t)| >= 2 && Finish(t)[..2] == "wp"
  {
    assert t[0] == 'w' && t[1] == 'p';
    var c := Cut(LetterFirst(DefaultName(t)));
    assert c == t[..|c|];
    assert |c| >= 2 && c[0] == 'w' && c[1] == 'p';
    var r := PatchEnd(c);
    if |c| > 2 {
      assert r[..|c| - 1][..2] == c[..|c| - 1][..2];
    }
  }

  /** Anything that starts with `wp-` keeps `wp` at the front of its sanitised form. */
  lemma SanitizeKeepsWpPrefix(x: string)
    ensures |Sanitize("wp-" + x)| >= 2 && Sanitize("wp-" + x)[..2] == "wp"
  {
    TidiedKeepsWp(x);
    FinishKeepsWp(Tidied("wp-" + x));
  }
}
