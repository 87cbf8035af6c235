/** The section-to-colour table and the particle colour tweens it drives
    (js/main.js:137-168). */
module ParticleColors {
  import opened Sections

  /** The `sectionColors` object literal (js/main.js:138-148). */
  const SectionColors: map<string, int> := map[
    "about" := 0x48D1CC,
    "experience" := 0xAF7AC5,
    "research" := 0x5DADE2,
    "projects" := 0x45B39D,
    "education" := 0xAF7AC5,
    "certificates" := 0x5DADE2,
    "skills" := 0x1ABC9C,
    "learning" := 0xF39C12,
    "contact" := 0x00BFFF
  ]

  const TwoTo31: int := 0x8000_0000
  const TwoTo32: int := 0x1_0000_0000

  /** JavaScript's ToInt32 on an integral Number: the signed 32-bit integer
      congruent to `x` modulo 2^32. */
  function ToInt32(x: int): (r: int)
    ensures -TwoTo31 <= r < TwoTo31
    ensures (x - r) % TwoTo32 == 0
  {
    var m := x % TwoTo32;
    if m < TwoTo31 then m else m - TwoTo32
  }

  function Pow2(n: nat): (p: nat)
    ensures p >= 1
  {
    if n == 0 then 1 else 2 * Pow2(n - 1)
  }

  /** `x >> n` for a shift count below 32: an arithmetic shift of the signed
      32-bit value, that is, division rounded towards minus infinity. */
  function ShiftRight(x: int, n: nat): int
    requires n < 32
  {
    ToInt32(x) / Pow2(n)
  }

  /** `x & 0xFF`: the low eight bits of the signed 32-bit value. */
  function LowByte(x: int): int
  {
    ToInt32(x) % 0x100
  }

  /** The three channel expressions of js/main.js:162-164 before the division
      by 255; `>>` binds tighter than `&`. */
  function Red(color: int): int { ShiftRight(color, 16) }
  function Green(color: int): int { LowByte(ShiftRight(color, 8)) }
  function Blue(color: int): int { LowByte(color) }

  /** The colour a 0..255 channel triple stands for. */
  function Compose(r: int, g: int, b: int): int
  {
    r * 0x1_0000 + g * 0x100 + b
  }

  lemma Pow2Values()
    ensures Pow2(8) == 0x100 && Pow2(16) == 0x1_0000
  {
    assert Pow2(4) == 16;
  }

  lemma MulAtLeast(k: int, d: int)
    requires 1 <= k && 0 < d
    ensures d <= k * d
  {
    assert k * d == d + (k - 1) * d;
  }

  /** Euclidean division has one quotient and one remainder. */
  lemma DivModUnique(c: int, d: int, q: int, r: int)
    requires 0 < d && 0 <= r < d && c == q * d + r
    ensures c / d == q && c % d == r
  {
    var q', r' := c / d, c % d;
    assert c == q' * d + r';
    assert (q - q') * d == r' - r;
    if q' < q {
      MulAtLeast(q - q', d);
    } else if q < q' {
      MulAtLeast(q' - q, d);
    }
  }

  /** A 24-bit colour splits into three bytes that put back together give the
      colour again. */
  lemma {:induction false} ChannelsOf24Bit(color: int)
    requires 0 <= color < 0x100_0000
    ensures 0 <= Red(color) < 0x100 && 0 <= Green(color) < 0x100 && 0 <= Blue(color) < 0x100
    ensures Compose(Red(color), Green(color), Blue(color)) == color
  {
    Pow2Values();
    var hi, b := color / 0x100, color % 0x100;
    var r, g := hi / 0x100, hi % 0x100;
    assert ToInt32(color) == color;
    assert 0 <= hi < 0x1_0000;
    assert ToInt32(hi) == hi;
    assert color == r * 0x1_0000 + (g * 0x100 + b);
    DivModUnique(color, 0x1_0000, r, g * 0x100 + b);
  }

  /** Three bytes composed into a colour are extracted unchanged. */
  lemma {:induction false} ComposeThenChannels(r: int, g: int, b: int)
    requires 0 <= r < 0x100 && 0 <= g < 0x100 && 0 <= b < 0x100
    ensures Red(Compose(r, g, b)) == r
    ensures Green(Compose(r, g, b)) == g
    ensures Blue(Compose(r, g, b)) == b
  {
    Pow2Values();
    var c := Compose(r, g, b);
    var hi := r * 0x100 + g;
    assert 0 <= hi < 0x1_0000;
    assert c == hi * 0x100 + b;
    assert 0 <= c < 0x100_0000;
    assert ToInt32(c) == c;
    assert ToInt32(hi) == hi;
    DivModUnique(c, 0x1_0000, r, g * 0x100 + b);
    DivModUnique(c, 0x100, hi, b);
    DivModUnique(hi, 0x100, r, g);
  }

  /** Every entry of the table is a nonzero 24-bit colour. */
  lemma TableColorsAre24Bit()
    ensures forall id :: id in SectionColors ==> 0 < SectionColors[id] < 0x100_0000
  {
  }

  /** `if (color)` on the lookup (js/main.js:152-154): a tween is made only
      for an id that is a key of the table with a nonzero (truthy) value. */
  predicate GetsTween(id: string)
  {
    id in SectionColors && SectionColors[id] != 0
  }

  /** The target a colour tween is given: the section it is bound to and
      the integer channels before normalisation. */
  datatype Tween = Tween(section: string, r: int, g: int, b: int)

  function TweenFor(id: string): Tween
    requires id in SectionColors
  {
    var c := SectionColors[id];
    Tween(id, Red(c), Green(c), Blue(c))
  }

  /** The tweens the `sections.forEach` of js/main.js:150-168 sets up, in
      section order. */
  function Tweens(secs: seq<Section>): (ts: seq<Tween>)
    ensures |ts| <= |secs|
    ensures forall t :: t in ts ==> GetsTween(t.section) && t == TweenFor(t.section)
    ensures forall t :: t in ts ==> exists s :: s in secs && s.id == t.section
  {
    if secs == [] then []
    else (if GetsTween(secs[0].id) then [TweenFor(secs[0].id)] else []) + Tweens(secs[1..])
  }

  /** The tweens of two consecutive runs of sections are those of the first
      run followed by those of the second. */
  lemma {:induction false} TweensAppend(a: seq<Section>, b: seq<Section>)
    ensures Tweens(a + b) == Tweens(a) + Tweens(b)
  {
    if a == [] {
      assert a + b == b;
    } else {
      assert (a + b)[1..] == a[1..] + b;
      TweensAppend(a[1..], b);
    }
  }

  /** Section `i` contributes exactly one tween, in its place, when its id
      gets one, and nothing otherwise. */
  lemma {:induction false} TweensAt(secs: seq<Section>, i: int)
    requires 0 <= i < |secs|
    ensures GetsTween(secs[i].id) ==>
      Tweens(secs) == Tweens(secs[..i]) + [TweenFor(secs[i].id)] + Tweens(secs[i + 1..])
    ensures !GetsTween(secs[i].id) ==>
      Tweens(secs) == Tweens(secs[..i]) + Tweens(secs[i + 1..])
  {
    assert secs == secs[..i] + ([secs[i]] + secs[i + 1..]);
    TweensAppend(secs[..i], [secs[i]] + secs[i + 1..]);
    TweensAppend([secs[i]], secs[i + 1..]);
    assert [secs[i]][1..] == [];
  }

  /** Every section whose id is a table key gets its tween. */
  lemma TableSectionsGetTween(secs: seq<Section>, i: int)
    requires 0 <= i < |secs| && secs[i].id in SectionColors
    ensures TweenFor(secs[i].id) in Tweens(secs)
  {
    TableColorsAre24Bit();
    TweensAt(secs, i);
  }

  // As written, `sectionColors[sectionId]` is a property read on a plain
  // object literal, so it also finds the members every object inherits from
  // Object.prototype. Each of them is a function or an object, hence truthy,
  // and converts to NaN, which `>>` and `&` turn into 0.

  /** The property names a plain object inherits from Object.prototype. */
  const InheritedNames: set<string> := {
    "constructor", "hasOwnProperty", "isPrototypeOf", "propertyIsEnumerable",
    "toLocaleString", "toString", "valueOf", "__proto__",
    "__defineGetter__", "__defineSetter__", "__lookupGetter__", "__lookupSetter__"
  }

  /** The truthiness test exactly as written. */
  predicate GetsTweenAsWritten(id: string)
  {
    GetsTween(id) || id in InheritedNames
  }

  /** The tweens set up exactly as written: an own key of the table tweens
      towards its colour, an inherited name towards black. */
  function TweensAsWritten(secs: seq<Section>): (ts: seq<Tween>)
    ensures |Tweens(secs)| <= |ts| <= |secs|
    ensures forall t :: t in ts ==> GetsTweenAsWritten(t.section)
    ensures forall t :: t in ts ==>
      if GetsTween(t.section) then t == TweenFor(t.section)
      else t.section in InheritedNames && t == Tween(t.section, 0, 0, 0)
  {
    if secs == [] then []
    else
      var id := secs[0].id;
      var first := if !GetsTweenAsWritten(id) then []
                   else if GetsTween(id) then [TweenFor(id)]
                   else [Tween(id, 0, 0, 0)];
      first + TweensAsWritten(secs[1..])
  }

  /** A section with the id "toString" is not a key of the table, yet as
      written it gets a tween to black. */
  lemma InheritedNameGetsTween()
    ensures "toString" !in SectionColors
    ensures GetsTweenAsWritten("toString")
    ensures TweensAsWritten([Section("toString", 0, 100)]) == [Tween("toString", 0, 0, 0)]
    ensures Tweens([Section("toString", 0, 100)]) == []
  {
    var secs := [Section("toString", 0, 100)];
    assert secs[1..] == [];
  }

  /** Where no id is an inherited name, the code as written and the table
      lookup agree. */
  lemma {:induction false} AsWrittenAgreesOnOwnKeys(secs: seq<Section>)
    requires forall i :: 0 <= i < |secs| ==> secs[i].id !in InheritedNames
    ensures TweensAsWritten(secs) == Tweens(secs)
  {
    if secs != [] {
      AsWrittenAgreesOnOwnKeys(secs[1..]);
    }
  }
}
