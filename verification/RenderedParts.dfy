/** The rendered text of a tree taken apart: each value, its parts, and what follows them. */
module RenderedParts {
  import opened CStrings
  import opened JsonTree
  import opened Numbers
  import opened Rendering

  lemma FirstChar(j: Json, format: bool, depth: nat)
    ensures var r := Render(j, format, depth); r != "" && r[0] > ' ' && r[0] != ']' && r[0] != '}'
  {
    if j.Number? {
      var d := Decimal(if j.n < 0 then -j.n else j.n);
      assert d[0] in d;
    }
  }

  // ---------- numbers

  function Pow10(k: nat): nat {
    if k == 0 then 1 else 10 * Pow10(k - 1)
  }

  lemma {:induction false} DecimalLength(n: nat, k: nat)
    requires 0 < k && n < Pow10(k)
    ensures |Decimal(n)| <= k
    decreases k
  {
    if n >= 10 {
      assert Pow10(1) == 10;
      DecimalLength(n / 10, k - 1);
    }
  }

  lemma PowOfBound()
    ensures Pow10(15) == NUMBER_BOUND
  {
    assert Pow10(5) == 100_000;
    assert Pow10(10) == 10_000_000_000;
  }

  /** Printed numbers are at most a sign and fifteen digits. */
  lemma IntegerText(n: int)
    requires -NUMBER_BOUND < n < NUMBER_BOUND
    ensures |Decimal(if n < 0 then -n else n)| <= 15 && |Integer(n)| <= 16 && Integer(n) != "" && NulFree(Integer(n))
  {
    var m: nat := if n < 0 then -n else n;
    PowOfBound();
    DecimalLength(m, 15);
    assert forall c | c in Decimal(m) :: IsDigit(c);
    hide Decimal;
    assert forall c | c in Integer(n) :: c == '-' || IsDigit(c);
  }

  // ---------- values and their parts

  /** The text of a value, of elements and of members, followed by more text. */
  function ValueThen(j: Json, format: bool, level: nat, post: string): string {
    Render(j, format, level) + post
  }

  function ItemsThen(items: seq<Json>, format: bool, level: nat, post: string): string {
    RenderItems(items, format, level) + post
  }

  function MembersThen(ms: seq<Member<Json>>, format: bool, level: nat, post: string): string {
    RenderMembers(ms, format, level) + post
  }

  lemma StartOfItems(items: seq<Json>, format: bool, level: nat, end: string)
    requires items != []
    ensures var t := ItemsThen(items, format, level, end); t != "" && t[0] > ' ' && t[0] != ']'
  {
    hide Render;
    FirstChar(items[0], format, level);
  }

  lemma Regroup3(a: string, b: string, c: string, d: string)
    ensures (a + b + c) + d == a + (b + (c + d))
  {
  }

  lemma ArrayText(items: seq<Json>, format: bool, level: nat, post: string)
    ensures ValueThen(Array(items), format, level, post) == "[" + ItemsThen(items, format, level + 1, "]" + post)
    ensures items == [] ==> ItemsThen(items, format, level + 1, "]" + post) == "]" + post
  {
    var r := RenderItems(items, format, level + 1);
    assert items == [] ==> r == "";
    hide RenderItems;
    assert ("[" + r + "]") + post == "[" + (r + ("]" + post));
  }

  lemma ItemsSplit(items: seq<Json>, format: bool, level: nat, post: string)
    requires items != []
    ensures ItemsThen(items, format, level, post) ==
      ValueThen(items[0], format, level, Separator(format, |items| > 1) + ItemsThen(items[1..], format, level, post))
  {
    hide Render;
    Regroup3(Render(items[0], format, level), Separator(format, |items| > 1), RenderItems(items[1..], format, level), post);
  }

  /** What stands between the text of the last member and the end of the object. */
  function ObjectEnd(format: bool, level: nat, post: string): string {
    When(format, Tabs(level)) + (['}'] + post)
  }

  /** The text of one member, from its key on, and of all that follows. */
  function MemberThen(m: Member<Json>, format: bool, level: nat, tail: string): string {
    Quote(m.key) + (":" + (When(format, "\t") + ValueThen(m.value, format, level, tail)))
  }

  lemma Regroup(a: string, b: string, c: string, d: string, e: string, f: string, g: string, h: string)
    ensures (((a + b + c + d) + e + f) + g) + h == a + (b + (c + (d + (e + (f + (g + h))))))
  {
    var k := a + b + c + d;
    assert (k + e + f + g) + h == k + (e + (f + (g + h)));
    var x := e + (f + (g + h));
    assert k + x == a + (b + (c + (d + x)));
  }

  lemma {:induction false} SplitMembers(ms: seq<Member<Json>>, format: bool, level: nat, end: string)
    requires ms != []
    ensures MembersThen(ms, format, level, end) ==
      When(format, Tabs(level))
      + MemberThen(ms[0], format, level, MemberEnd(format, |ms| > 1) + MembersThen(ms[1..], format, level, end))
  {
    hide Render, Escape;
    Regroup(When(format, Tabs(level)), Quote(ms[0].key), ":", When(format, "\t"), Render(ms[0].value, format, level),
            MemberEnd(format, |ms| > 1), RenderMembers(ms[1..], format, level), end);
  }

  lemma NoMembersThen(format: bool, level: nat, end: string)
    ensures MembersThen([], format, level, end) == end
  {
    assert RenderMembers([], format, level) == "";
  }

  lemma {:induction false} ObjectText(ms: seq<Member<Json>>, format: bool, level: nat, post: string)
    ensures ValueThen(Object(ms), format, level, post)
         == "{" + (When(format, "\n") + MembersThen(ms, format, level + 1, ObjectEnd(format, level, post)))
  {
    hide RenderMembers, When;
    var g, r, e := When(format, "\n"), RenderMembers(ms, format, level + 1), When(format, Tabs(level));
    var x := ['}'] + post;
    assert Render(Object(ms), format, level) == "{" + g + r + e + "}";
    assert ("{" + g + r + e + "}") + post == ("{" + g + r) + (e + x);
    Regroup3("{", g, r, e + x);
  }
}
