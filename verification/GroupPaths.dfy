/** Path texts of groups: decimal ids joined by ", ", the LIKE patterns that search them, and the
    id list they form inside an IN clause. */
module GroupPaths {

  // ---- decimals ----

  function Digit(n: nat): (c: char)
    requires n < 10
    ensures '0' <= c <= '9'
  {
    '0' + n as char
  }

  predicate AllDigits(s: string) {
    forall i :: 0 <= i < |s| ==> '0' <= s[i] <= '9'
  }

  /** "%d" of a number that is not negative. */
  function Decimal(n: nat): (s: string)
    ensures s != []
    ensures AllDigits(s)
  {
    if n < 10 then [Digit(n)] else Decimal(n / 10) + [Digit(n % 10)]
  }

  lemma {:induction false} DecimalIsInjective(a: nat, b: nat)
    requires Decimal(a) == Decimal(b)
    ensures a == b
  {
    var s, t := Decimal(a), Decimal(b);
    assert s[|s| - 1] == Digit(a % 10) && t[|t| - 1] == Digit(b % 10);
    assert a % 10 == b % 10;
    if a >= 10 && b >= 10 {
      assert Decimal(a / 10) == s[..|s| - 1] == t[..|t| - 1] == Decimal(b / 10);
      DecimalIsInjective(a / 10, b / 10);
    } else {
      assert a < 10 ==> |s| == 1;
      assert b < 10 ==> |t| == 1;
    }
  }

  // ---- path texts ----

  /** The ids of a path, from the root down. */
  type Ids = s: seq<nat> | s != [] witness [0]

  /** "A, B, C" */
  function Joined(ids: Ids): string
  {
    if |ids| == 1 then Decimal(ids[0]) else Decimal(ids[0]) + ", " + Joined(ids[1..])
  }

  lemma {:induction false} JoinedGrows(ids: Ids, id: nat)
    ensures Joined(ids + [id]) == Joined(ids) + ", " + Decimal(id)
  {
    assert (ids + [id])[1..] == ids[1..] + [id];
    if |ids| > 1 {
      JoinedGrows(ids[1..], id);
    }
  }

  // ---- LIKE ----

  /** SQL LIKE: % is any text, _ any character. */
  predicate Like(s: string, pattern: string)
    decreases |pattern|, |s|
  {
    if pattern == [] then s == []
    else if pattern[0] == '%' then Like(s, pattern[1..]) || (s != [] && Like(s[1..], pattern))
    else s != [] && (pattern[0] == '_' || s[0] == pattern[0]) && Like(s[1..], pattern[1..])
  }

  predicate Literal(s: string) {
    '%' !in s && '_' !in s
  }

  predicate OccursAt(s: string, t: string, i: nat) {
    i <= |s| && t <= s[i..]
  }

  ghost predicate Occurs(s: string, t: string) {
    exists i: nat :: OccursAt(s, t, i)
  }

  lemma {:induction false} AnyTail(s: string)
    ensures Like(s, "%")
  {
    if s != [] {
      AnyTail(s[1..]);
    }
  }

  lemma {:induction false} LikePrefix(s: string, t: string)
    requires Literal(t)
    ensures Like(s, t + "%") <==> t <= s
  {
    if t == [] {
      assert t + "%" == "%";
      AnyTail(s);
    } else {
      assert (t + "%")[1..] == t[1..] + "%";
      if s != [] {
        LikePrefix(s[1..], t[1..]);
        assert t == [t[0]] + t[1..] && s == [s[0]] + s[1..];
      }
    }
  }

  lemma {:induction false} LikeInside(s: string, t: string)
    requires Literal(t)
    ensures Like(s, "%" + t + "%") <==> Occurs(s, t)
    decreases |s|
  {
    var pattern := "%" + t + "%";
    assert pattern[1..] == t + "%";
    LikePrefix(s, t);
    OccursStep(s, t);
    if s != [] {
      LikeInside(s[1..], t);
    }
  }

  /** A text occurs at the front or behind the first character. */
  lemma OccursStep(s: string, t: string)
    ensures Occurs(s, t) <==> t <= s || (s != [] && Occurs(s[1..], t))
  {
    assert s[0..] == s;
    assert t <= s <==> OccursAt(s, t, 0);
    if s != [] {
      if i: nat :| OccursAt(s[1..], t, i) {
        assert s[1..][i..] == s[i + 1..];
        assert OccursAt(s, t, i + 1);
      }
      if i: nat :| OccursAt(s, t, i) && i > 0 {
        assert s[1..][i - 1..] == s[i..];
        assert OccursAt(s[1..], t, i - 1);
      }
    }
  }

  // ---- the two patterns ----

  /** The first separator of a path stands right behind its first id. */
  lemma {:induction false} StartsWithId(ids: Ids, g: nat)
    ensures Decimal(g) + ", " <= Joined(ids) <==> |ids| > 1 && ids[0] == g
  {
    var first, d, text := Decimal(ids[0]), Decimal(g), Joined(ids);
    assert first <= text;
    if d + ", " <= text {
      assert text[|d|] == ',' && text[..|d|] == d;
      assert forall i :: 0 <= i < |first| ==> text[i] == first[i];
      assert |first| <= |d| && |ids| > 1;
      assert text[|first|] == ',';
      assert forall i :: 0 <= i < |d| ==> text[i] == d[i];
      assert d == text[..|d|] == first;
      DecimalIsInjective(g, ids[0]);
    }
  }

  /** An id of a list that is neither its first nor its last. */
  predicate IsInner(ids: seq<nat>, g: nat) {
    exists k :: 0 < k < |ids| - 1 && ids[k] == g
  }

  function Separated(g: nat): string {
    ", " + Decimal(g) + ", "
  }

  /** An id stands between two separators exactly when it is neither the first nor the last. */
  lemma {:induction false} ContainsId(ids: Ids, g: nat)
    ensures Occurs(Joined(ids), Separated(g)) <==> IsInner(ids, g)
  {
    if |ids| == 1 {
      DigitsHoldNoId(Joined(ids), g);
    } else {
      ContainsId(ids[1..], g);
      StartsWithId(ids[1..], g);
      AfterFirst(Decimal(ids[0]), Joined(ids[1..]), g);
      InnerIds(ids, g);
    }
  }

  lemma DigitsHoldNoId(text: string, g: nat)
    requires AllDigits(text)
    ensures !Occurs(text, Separated(g))
  {
    forall i: nat
      ensures !OccursAt(text, Separated(g), i)
    {
      assert i < |text| ==> text[i..][0] == text[i] != Separated(g)[0];
    }
  }

  lemma InnerIds(ids: Ids, g: nat)
    requires |ids| > 1
    ensures IsInner(ids, g) <==> (|ids[1..]| > 1 && ids[1..][0] == g) || IsInner(ids[1..], g)
  {
    if k :| 0 < k < |ids| - 1 && ids[k] == g {
      assert ids[1..][k - 1] == g;
    }
    if k :| 0 <= k < |ids[1..]| - 1 && ids[1..][k] == g {
      assert ids[k + 1] == g;
    }
  }

  lemma AfterFirst(first: string, rest: string, g: nat)
    requires AllDigits(first)
    ensures Occurs(first + ", " + rest, Separated(g)) <==> Decimal(g) + ", " <= rest || Occurs(rest, Separated(g))
  {
    var text, t, n := first + ", " + rest, Separated(g), |first|;
    if i: nat :| OccursAt(text, t, i) {
      SplitAt(first, rest, g, i);
    }
    if i: nat :| OccursAt(rest, t, i) {
      SplitAt(first, rest, g, i + n + 2);
      assert OccursAt(text, t, i + n + 2);
    }
    if Decimal(g) + ", " <= rest {
      SplitAt(first, rest, g, n);
      assert OccursAt(text, t, n);
    }
  }

  /** A separated id starts behind the first id or later, never inside it. */
  lemma SplitAt(first: string, rest: string, g: nat, i: nat)
    requires AllDigits(first)
    ensures OccursAt(first + ", " + rest, Separated(g), i) <==>
      (i == |first| && Decimal(g) + ", " <= rest) || (i >= |first| + 2 && OccursAt(rest, Separated(g), i - |first| - 2))
  {
    var text, t, n := first + ", " + rest, Separated(g), |first|;
    assert i < |text| ==> text[i..][0] == text[i];
    if i == n {
      assert text[i..] == ", " + rest && t == ", " + (Decimal(g) + ", ");
      assert text[i..][2..] == rest && t[2..] == Decimal(g) + ", ";
    } else if i >= n + 2 && i <= |text| {
      assert text[i..] == rest[i - n - 2..];
    }
  }

  // ---- IN lists ----

  /** The numbers of a comma-separated list, spaces skipped. */
  function ListIds(text: string, number: nat): seq<nat> {
    if text == [] then [number]
    else if text[0] == ',' then [number] + ListIds(text[1..], 0)
    else if '0' <= text[0] <= '9' then ListIds(text[1..], number * 10 + (text[0] - '0') as nat)
    else ListIds(text[1..], number)
  }

  lemma {:induction false} ReadsDecimal(n: nat, rest: string)
    ensures ListIds(Decimal(n) + rest, 0) == ListIds(rest, n)
  {
    if n < 10 {
      assert (Decimal(n) + rest)[1..] == rest;
    } else {
      var last := [Digit(n % 10)] + rest;
      ReadsDecimal(n / 10, last);
      assert Decimal(n) + rest == Decimal(n / 10) + last;
      assert last[1..] == rest;
    }
  }

  lemma ReadsFirst(n: nat, rest: string)
    ensures ListIds(Decimal(n) + ", " + rest, 0) == [n] + ListIds(rest, 0)
  {
    ReadsDecimal(n, ", " + rest);
    assert Decimal(n) + ", " + rest == Decimal(n) + (", " + rest);
    assert (", " + rest)[1..] == " " + rest && (" " + rest)[1..] == rest;
  }

  /** A path text put between the parentheses of IN names its ids. */
  lemma {:induction false} ListOfJoined(ids: Ids)
    ensures ListIds(Joined(ids), 0) == ids
  {
    if |ids| == 1 {
      ReadsDecimal(ids[0], "");
      assert Decimal(ids[0]) + "" == Decimal(ids[0]);
    } else {
      ReadsFirst(ids[0], Joined(ids[1..]));
      ListOfJoined(ids[1..]);
    }
  }
}
