/**
 * The slug normaliser: `slugify` lower-cases a title, turns every run of
 * characters outside [a-z0-9] into one '-', and drops a leading and a
 * trailing '-'. The same function is written out twice in the repository
 * (the scraper service and the seed script); it is modelled once here.
 */
module Slug {

  /** String.prototype.toLowerCase restricted to ASCII: only A-Z change. */
  function Lower(c: char): char {
    if 'A' <= c <= 'Z' then (c as int + 32) as char else c
  }

  function LowerAll(s: string): string {
    seq(|s|, i requires 0 <= i < |s| => Lower(s[i]))
  }

  /** The character class [a-z0-9]. */
  predicate IsSlugChar(c: char) {
    'a' <= c <= 'z' || '0' <= c <= '9'
  }

  /** `replace(/[^a-z0-9]+/g, '-')`: each maximal run of other characters becomes one '-'. */
  function Collapse(s: string): string {
    if s == [] then []
    else if IsSlugChar(s[0]) then [s[0]] + Collapse(s[1..])
    else
      var rest := Collapse(s[1..]);
      if rest != [] && rest[0] == '-' then rest else ['-'] + rest
  }

  /** `replace(/(^-|-$)/g, '')`: one leading and one trailing '-' go. */
  function Strip(s: string): string {
    var t := if s != [] && s[0] == '-' then s[1..] else s;
    if t != [] && t[|t| - 1] == '-' then t[..|t| - 1] else t
  }

  function Slugify(s: string): string {
    Strip(Collapse(LowerAll(s)))
  }

  /** Only [a-z0-9-], and no "--". */
  predicate Dashed(s: string) {
    && (forall i :: 0 <= i < |s| ==> IsSlugChar(s[i]) || s[i] == '-')
    && (forall i :: 0 <= i < |s| - 1 ==> !(s[i] == '-' && s[i + 1] == '-'))
  }

  /** What a slug looks like: [a-z0-9-] only, no "--", no '-' at either end. */
  predicate IsSlug(s: string) {
    Dashed(s) && (s != [] ==> s[0] != '-' && s[|s| - 1] != '-')
  }

  /** The letters and digits of a string, in order. */
  function Alnum(s: string): string {
    if s == [] then [] else (if IsSlugChar(s[0]) then [s[0]] else []) + Alnum(s[1..])
  }

  // ---------------------------------------------------------------------------
  // Shape of the output

  lemma {:induction false} CollapseShape(s: string)
    ensures Dashed(Collapse(s))
    ensures (Collapse(s) != [] && Collapse(s)[0] == '-') <==> (s != [] && !IsSlugChar(s[0]))
  {
    if s != [] {
      CollapseShape(s[1..]);
    }
  }

  lemma StripShape(t: string)
    requires Dashed(t)
    ensures IsSlug(Strip(t))
  {
    var u := if t != [] && t[0] == '-' then t[1..] else t;
    assert Dashed(u);
    if u != [] && u[|u| - 1] == '-' {
      var v := u[..|u| - 1];
      assert v != [] ==> v[|v| - 1] == u[|u| - 2];
      assert v != [] && t != [] && t[0] == '-' ==> u[0] == t[1];
    } else {
      assert u != [] && t != [] && t[0] == '-' ==> u[0] == t[1];
    }
  }

  /** Every slug consists of [a-z0-9-] with no "--" and no '-' at either end. */
  lemma SlugifyIsSlug(s: string)
    ensures IsSlug(Slugify(s))
  {
    CollapseShape(LowerAll(s));
    StripShape(Collapse(LowerAll(s)));
  }

  // ---------------------------------------------------------------------------
  // Fixed points and idempotence

  lemma {:induction false} CollapseDashed(s: string)
    requires Dashed(s)
    ensures Collapse(s) == s
  {
    if s != [] {
      assert Dashed(s[1..]);
      CollapseDashed(s[1..]);
      if !IsSlugChar(s[0]) {
        assert s[0] == '-';
        assert s[1..] != [] ==> s[1..][0] == s[1] != '-';
      }
    }
  }

  /** A string that already is a slug is left unchanged by slugify. */
  lemma SlugFixedPoint(s: string)
    requires IsSlug(s)
    ensures Slugify(s) == s
  {
    assert LowerAll(s) == s;
    CollapseDashed(s);
  }

  /** `slugify(slugify(s)) == slugify(s)`. */
  lemma SlugifyIdempotent(s: string)
    ensures Slugify(Slugify(s)) == Slugify(s)
  {
    SlugifyIsSlug(s);
    SlugFixedPoint(Slugify(s));
  }

  /** The fixed points of slugify are exactly the slugs. */
  lemma SlugifyFixedPointsAreSlugs(s: string)
    ensures Slugify(s) == s <==> IsSlug(s)
  {
    SlugifyIsSlug(s);
    if IsSlug(s) {
      SlugFixedPoint(s);
    }
  }

  // ---------------------------------------------------------------------------
  // Letters and digits are kept, lower-cased and in order

  lemma {:induction false} AlnumAppend(a: string, b: string)
    ensures Alnum(a + b) == Alnum(a) + Alnum(b)
  {
    if a == [] {
      assert a + b == b;
    } else {
      assert (a + b)[1..] == a[1..] + b;
      AlnumAppend(a[1..], b);
    }
  }

  lemma {:induction false} AlnumCollapse(s: string)
    ensures Alnum(Collapse(s)) == Alnum(s)
  {
    if s != [] {
      AlnumCollapse(s[1..]);
      var rest := Collapse(s[1..]);
      if IsSlugChar(s[0]) {
        assert ([s[0]] + rest)[1..] == rest;
      } else if !(rest != [] && rest[0] == '-') {
        assert (['-'] + rest)[1..] == rest;
      }
    }
  }

  lemma AlnumStrip(t: string)
    ensures Alnum(Strip(t)) == Alnum(t)
  {
    var u := if t != [] && t[0] == '-' then t[1..] else t;
    assert Alnum(u) == Alnum(t);
    if u != [] && u[|u| - 1] == '-' {
      assert u == u[..|u| - 1] + ['-'];
      AlnumAppend(u[..|u| - 1], ['-']);
      assert Alnum(['-']) == [];
    }
  }

  /** slugify keeps every letter and digit of the lower-cased title, in order, and adds none. */
  lemma SlugifyKeepsAlnum(s: string)
    ensures Alnum(Slugify(s)) == Alnum(LowerAll(s))
  {
    AlnumStrip(Collapse(LowerAll(s)));
    AlnumCollapse(LowerAll(s));
  }

  // ---------------------------------------------------------------------------
  // Characters outside [a-z0-9] at either end do not matter

  lemma StripDashCons(x: string)
    requires !(x != [] && x[0] == '-')
    ensures Strip(['-'] + x) == Strip(x)
  {
    assert (['-'] + x)[1..] == x;
  }

  lemma StripDashSnoc(x: string)
    requires !(x != [] && x[|x| - 1] == '-')
    ensures Strip(x + ['-']) == Strip(x)
  {
    var y := x + ['-'];
    if x != [] && x[0] == '-' {
      assert y[1..] == x[1..] + ['-'];
      assert (x[1..] + ['-'])[..|x| - 1] == x[1..];
    } else {
      assert y[..|y| - 1] == x;
    }
  }

  /** A character that is not [a-z0-9] once lower-cased can be dropped from the front. */
  lemma SlugifyDropFirst(c: char, s: string)
    requires !IsSlugChar(Lower(c))
    ensures Slugify([c] + s) == Slugify(s)
  {
    var l := LowerAll([c] + s);
    assert l == [Lower(c)] + LowerAll(s);
    assert l[1..] == LowerAll(s);
    var rest := Collapse(LowerAll(s));
    if !(rest != [] && rest[0] == '-') {
      StripDashCons(rest);
    }
  }

  lemma {:induction false} CollapseSnoc(s: string, c: char)
    requires !IsSlugChar(c)
    ensures var r := Collapse(s);
      Collapse(s + [c]) == if r != [] && r[|r| - 1] == '-' then r else r + ['-']
  {
    if s == [] {
      assert s + [c] == [c];
    } else {
      var t := s[1..];
      assert (s + [c])[1..] == t + [c];
      assert (s + [c])[0] == s[0];
      CollapseSnoc(t, c);
      var rt := Collapse(t);
      var rc := Collapse(t + [c]);
      assert rc == if rt != [] && rt[|rt| - 1] == '-' then rt else rt + ['-'];
      if IsSlugChar(s[0]) {
        assert Collapse(s) == [s[0]] + rt;
        assert Collapse(s + [c]) == [s[0]] + rc;
      } else if rt == [] {
        assert rc == ['-'];
      } else {
        assert rc[0] == rt[0];
      }
    }
  }

  /** A character that is not [a-z0-9] once lower-cased can be dropped from the end. */
  lemma SlugifyDropLast(s: string, c: char)
    requires !IsSlugChar(Lower(c))
    ensures Slugify(s + [c]) == Slugify(s)
  {
    assert LowerAll(s + [c]) == LowerAll(s) + [Lower(c)];
    CollapseSnoc(LowerAll(s), Lower(c));
    var r := Collapse(LowerAll(s));
    if !(r != [] && r[|r| - 1] == '-') {
      StripDashSnoc(r);
    }
  }

  // ---------------------------------------------------------------------------
  // Examples

  /** A string whose lower-cased form is all [a-z0-9] slugifies to that form. */
  lemma SlugifyPlain(s: string, l: string)
    requires LowerAll(s) == l && forall i :: 0 <= i < |l| ==> IsSlugChar(l[i])
    ensures Slugify(s) == l
  {
    CollapseDashed(l);
  }

  /** "Naruto" and "Bleach" lower-case to "naruto" and "bleach". */
  lemma LowerNarutoBleach()
    ensures LowerAll("Naruto") == "naruto" && LowerAll("Bleach") == "bleach"
  {
    var n, b := LowerAll("Naruto"), LowerAll("Bleach");
    assert Lower('N') == 'n' && Lower('B') == 'b';
    assert |n| == 6 && n[0] == 'n' && forall i | 1 <= i < 6 :: n[i] == "Naruto"[i];
    assert |b| == 6 && b[0] == 'b' && forall i | 1 <= i < 6 :: b[i] == "Bleach"[i];
  }

  lemma SlugifyNaruto()
    ensures Slugify("Naruto!") == "naruto"
  {
    assert "Naruto!" == "Naruto" + ['!'];
    SlugifyDropLast("Naruto", '!');
    LowerNarutoBleach();
    SlugifyPlain("Naruto", "naruto");
  }

  /** A prefix of [a-z0-9] characters passes through unchanged. */
  lemma {:induction false} CollapsePlain(a: string, b: string)
    requires forall i :: 0 <= i < |a| ==> IsSlugChar(a[i])
    ensures Collapse(a + b) == a + Collapse(b)
  {
    if a == [] {
      assert a + b == b;
    } else {
      assert (a + b)[1..] == a[1..] + b;
      assert (a + b)[0] == a[0];
      CollapsePlain(a[1..], b);
      assert a == [a[0]] + a[1..];
    }
  }

  /** One character outside [a-z0-9] before a word becomes one '-'. */
  lemma CollapseGap(c: char, b: string)
    requires !IsSlugChar(c) && b != [] && IsSlugChar(b[0])
    ensures Collapse([c] + b) == ['-'] + Collapse(b)
  {
    assert ([c] + b)[1..] == b;
    CollapseShape(b);
  }

  lemma SlugifySpacedDashes()
    ensures Slugify("  A--B  ") == "a-b"
  {
    assert "  A--B  " == [' '] + ([' '] + "A--B  ");
    SlugifyDropFirst(' ', [' '] + "A--B  ");
    SlugifyDropFirst(' ', "A--B  ");
    assert "A--B  " == "A--B " + [' '] && "A--B " == "A--B" + [' '];
    SlugifyDropLast("A--B ", ' ');
    SlugifyDropLast("A--B", ' ');
    var l := LowerAll("A--B");
    assert Lower('A') == 'a' && Lower('B') == 'b' && Lower('-') == '-';
    assert |l| == 4 && l[0] == 'a' && l[1] == '-' && l[2] == '-' && l[3] == 'b';
    assert l == "a" + (['-'] + (['-'] + "b"));
    CollapsePlain("a", ['-'] + (['-'] + "b"));
    CollapseGap('-', "b");
    assert Collapse("b") == "b" by {
      CollapsePlain("b", []);
      assert "b" + [] == "b";
    }
    assert (['-'] + (['-'] + "b"))[1..] == ['-'] + "b";
    assert Collapse(l) == "a-b";
  }

  lemma LowerOnePiece()
    ensures LowerAll("One Piece") == "one piece"
  {
    var s := "One Piece";
    var l := LowerAll(s);
    assert Lower('O') == 'o' && Lower('P') == 'p';
    assert |l| == 9;
    assert l[0] == 'o' && l[4] == 'p';
    assert forall i | i in {1, 2, 3, 5, 6, 7, 8} :: l[i] == s[i];
  }

  lemma SlugifyOnePiece()
    ensures Slugify("One Piece") == "one-piece"
  {
    LowerOnePiece();
    assert "one piece" == "one" + ([' '] + "piece");
    CollapsePlain("one", [' '] + "piece");
    CollapseGap(' ', "piece");
    CollapsePlain("piece", []);
    assert "piece" + [] == "piece";
    assert "one-piece" == "one" + (['-'] + "piece");
  }
}
