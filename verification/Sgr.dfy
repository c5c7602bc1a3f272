/** Laws of the select graphic rendition (SGR) commands, as operations on a terminal. */
module Sgr {
  import opened Types
  import opened Sequences
  import opened TerminalModel
  import opened GridLaws

  /** The operation changes the style, from the one there was, and marks damage; nothing else. */
  lemma StyleOnly(t: Terminal, ps: seq<int>)
    requires WellFormed(t)
    ensures Apply(t, SetGraphicsRendition(ps)) == t.(style := Rendition(t.style, ps), damaged := true)
  {
  }

  lemma RenditionIs(s: CellStyle, ps: seq<int>)
    ensures Rendition(s, ps) == ApplyCommands(s, if ps == [] then [0] else ps)
  {
  }

  // ---- Concatenation ----

  /** No parameter is missing at the end: no colour command is cut short. */
  predicate WholeCommand(ps: seq<int>)
    requires ps != []
  {
    (ps[0] == 38 || ps[0] == 48) ==>
      && |ps| >= 2
      && (ps[1] == 5 ==> |ps| >= 3)
      && (ps[1] == 2 ==> |ps| >= 5)
  }

  /** Where a whole command ends: a colour takes three or five parameters, an unknown kind of colour two. */
  function WholeLength(ps: seq<int>): (n: nat)
    requires ps != [] && WholeCommand(ps)
    ensures 1 <= n <= |ps|
  {
    if ps[0] != 38 && ps[0] != 48 then 1 else if ps[1] == 5 then 3 else if ps[1] == 2 then 5 else 2
  }

  predicate Complete(ps: seq<int>)
    decreases |ps|
  {
    ps != [] ==> WholeCommand(ps) && Complete(ps[WholeLength(ps)..])
  }

  lemma LengthOfWhole(ps: seq<int>)
    requires ps != [] && WholeCommand(ps)
    ensures CommandLength(ps) == WholeLength(ps)
  {
  }

  lemma FirstCommandOfConcat(s: CellStyle, a: seq<int>, b: seq<int>)
    requires a != [] && WholeCommand(a)
    ensures CommandLength(a + b) == CommandLength(a)
    ensures ApplyCommand(s, a + b) == ApplyCommand(s, a)
    ensures (a + b)[CommandLength(a)..] == a[CommandLength(a)..] + b
  {
    hide ApplyParameter;
  }

  lemma {:induction false} ApplyConcat(s: CellStyle, a: seq<int>, b: seq<int>)
    requires Complete(a)
    ensures ApplyCommands(s, a + b) == ApplyCommands(ApplyCommands(s, a), b)
    decreases |a|
  {
    hide ApplyCommand, CommandLength, WholeCommand, WholeLength;
    if a == [] {
      assert a + b == b;
    } else {
      LengthOfWhole(a);
      FirstCommandOfConcat(s, a, b);
      ApplyConcat(ApplyCommand(s, a), a[CommandLength(a)..], b);
    }
  }

  /** Two lists in one command, or in two: no difference if the first one is complete. */
  lemma RenditionConcat(s: CellStyle, a: seq<int>, b: seq<int>)
    requires a != [] && b != [] && Complete(a)
    ensures Rendition(s, a + b) == Rendition(Rendition(s, a), b)
  {
    ApplyConcat(s, a, b);
  }

  /** And if it is not complete, some second list tells the difference: it ends a colour instead of inverting. */
  lemma {:induction false} IncompleteMatters(s: CellStyle, a: seq<int>) returns (b: seq<int>)
    requires !Complete(a)
    ensures b != [] && ApplyCommands(s, a + b).attributes & 16 != ApplyCommands(ApplyCommands(s, a), b).attributes & 16
    decreases |a|
  {
    if WholeCommand(a) {
      FirstCommandOfConcat(s, a, []);
      LengthOfWhole(a);
      b := IncompleteMatters(ApplyCommand(s, a), a[CommandLength(a)..]);
      FirstCommandOfConcat(s, a, b);
    } else {
      var toggle := if s.attributes & 16 == 0 then 7 else 27;
      if |a| == 1 {
        b := [5, toggle];
      } else if a[1] == 5 {
        b := [toggle];
      } else {
        b := [toggle, toggle, toggle][..5 - |a|];
      }
      CutShort(s, a, b, toggle);
    }
  }

  lemma CutShort(s: CellStyle, a: seq<int>, b: seq<int>, toggle: int)
    requires a != [] && !WholeCommand(a) && toggle == if s.attributes & 16 == 0 then 7 else 27
    requires b == if |a| == 1 then [5, toggle] else if a[1] == 5 then [toggle] else [toggle, toggle, toggle][..5 - |a|]
    ensures ApplyCommands(s, a + b).attributes & 16 == s.attributes & 16
    ensures ApplyCommands(ApplyCommands(s, a), b).attributes & 16 != s.attributes & 16
  {
    assert ApplyCommands(s, a + b) == ApplyCommand(s, a + b) by {
      assert CommandLength(a + b) == |a + b|;
    }
    EndsWithToggle(ApplyCommands(s, a), b, toggle);
  }

  lemma EndsWithToggle(s: CellStyle, b: seq<int>, toggle: int)
    requires toggle == 7 || toggle == 27
    requires 1 <= |b| <= 3 && b[|b| - 1] == toggle && forall i :: 0 <= i < |b| - 1 ==> b[i] == toggle || b[i] == 5
    ensures ApplyCommands(s, b).attributes & 16 == if toggle == 7 then 16 else 0
    decreases |b|
  {
    if |b| == 1 {
      assert ApplyCommands(s, b) == ApplyParameter(s, toggle);
      if toggle == 7 {
        assert (s.attributes | 16) & 16 == 16;
      } else {
        assert (s.attributes & !16) & 16 == 0;
      }
    } else {
      EndsWithToggle(ApplyParameter(s, b[0]), b[1..], toggle);
    }
  }

  lemma OneOrTwo(t: Terminal, a: seq<int>, b: seq<int>)
    requires WellFormed(t) && a != [] && b != []
    ensures Apply(t, SetGraphicsRendition(a + b)) == Apply(Apply(t, SetGraphicsRendition(a)), SetGraphicsRendition(b))
            <==> Rendition(t.style, a + b) == Rendition(Rendition(t.style, a), b)
  {
    hide Rendition, Apply, WellFormed;
    StyleOnly(t, a + b);
    StyleOnly(t, a);
    StyleOnly(Apply(t, SetGraphicsRendition(a)), b);
  }

  /** One command with both lists acts as two commands, whatever the terminal and the second list, exactly if the first list is complete. */
  lemma ConcatExactlyIfComplete(a: seq<int>)
    requires a != []
    ensures Complete(a) <==>
            forall t: Terminal, b: seq<int> :: WellFormed(t) && b != [] ==>
              Apply(t, SetGraphicsRendition(a + b)) == Apply(Apply(t, SetGraphicsRendition(a)), SetGraphicsRendition(b))
  {
    hide Apply, Rendition, WellFormed, Initial;
    if Complete(a) {
      forall t: Terminal, b: seq<int> | WellFormed(t) && b != []
        ensures Apply(t, SetGraphicsRendition(a + b)) == Apply(Apply(t, SetGraphicsRendition(a)), SetGraphicsRendition(b))
      {
        RenditionConcat(t.style, a, b);
        OneOrTwo(t, a, b);
      }
    } else {
      var t := Initial(1, 1, 0);
      var b := IncompleteMatters(t.style, a);
      RenditionIs(t.style, a + b);
      RenditionIs(t.style, a);
      RenditionIs(Rendition(t.style, a), b);
      OneOrTwo(t, a, b);
    }
  }

  /**
    A colour command cut short: 38 or 48 alone does nothing; with a kind that is unknown, or with too
    little behind it, the two are skipped and what is left are commands of their own.
   */
  lemma CutShortCommands(t: Terminal, k: int, kind: int, rest: seq<int>)
    requires WellFormed(t) && (k == 38 || k == 48)
    requires (kind == 5 ==> rest == []) && (kind == 2 ==> |rest| < 3)
    ensures Apply(t, SetGraphicsRendition([k])) == Apply(t, SetGraphicsRendition([k, kind])) == t.(damaged := true)
    ensures rest != [] ==>
            Apply(t, SetGraphicsRendition([k, kind] + rest)) == Apply(t, SetGraphicsRendition(rest))
  {
    hide ApplyParameter, Apply, WellFormed;
    StyleOnly(t, [k]);
    StyleOnly(t, [k, kind]);
    StyleOnly(t, [k, kind] + rest);
    StyleOnly(t, rest);
    LastCommand(t.style, [k]);
    LastCommand(t.style, [k, kind]);
    assert ([k, kind] + rest)[2..] == rest;
  }

  lemma LastCommand(s: CellStyle, ps: seq<int>)
    requires ps != [] && CommandLength(ps) == |ps|
    ensures ApplyCommands(s, ps) == ApplyCommand(s, ps)
  {
    hide ApplyCommand, CommandLength;
    assert ps[|ps|..] == [];
  }

  // ---- Single commands ----

  /** The short forms of the sixteen colours mean the same as the indexed long forms. */
  lemma PaletteParameters(t: Terminal, i: int)
    requires WellFormed(t) && 0 <= i < 8
    ensures Apply(t, SetGraphicsRendition([30 + i])) == Apply(t, SetGraphicsRendition([38, 5, i]))
    ensures Apply(t, SetGraphicsRendition([40 + i])) == Apply(t, SetGraphicsRendition([48, 5, i]))
    ensures Apply(t, SetGraphicsRendition([90 + i])) == Apply(t, SetGraphicsRendition([38, 5, 8 + i]))
    ensures Apply(t, SetGraphicsRendition([100 + i])) == Apply(t, SetGraphicsRendition([48, 5, 8 + i]))
  {
    hide Apply, WellFormed, Clamp, Rendition;
    ShortColor(t, 30 + i);
    ShortColor(t, 40 + i);
    ShortColor(t, 90 + i);
    ShortColor(t, 100 + i);
    LongColors(t, true, i, 0, 0, 0);
    LongColors(t, false, i, 0, 0, 0);
    LongColors(t, true, 8 + i, 0, 0, 0);
    LongColors(t, false, 8 + i, 0, 0, 0);
    SmallClamp(i);
    SmallClamp(8 + i);
  }

  lemma SmallClamp(i: int)
    requires 0 <= i < 256
    ensures Clamp(i, 255) == i
  {
  }

  lemma ShortColor(t: Terminal, p: int)
    requires WellFormed(t) && (30 <= p <= 37 || 40 <= p <= 47 || 90 <= p <= 97 || 100 <= p <= 107)
    ensures Apply(t, SetGraphicsRendition([p])) ==
            t.(style := if p < 40 then t.style.(foreground := Color(IndexedKind, p - 30, Rgb(0, 0, 0)))
                        else if p < 50 then t.style.(background := Color(IndexedKind, p - 40, Rgb(0, 0, 0)))
                        else if p < 100 then t.style.(foreground := Color(IndexedKind, p - 82, Rgb(0, 0, 0)))
                        else t.style.(background := Color(IndexedKind, p - 92, Rgb(0, 0, 0))),
               damaged := true)
  {
    hide Apply, WellFormed, WithAttribute;
    StyleOnly(t, [p]);
    OneParameter(t.style, p);
  }

  /** The long forms, whatever their numbers: components are the nearest octet. */
  lemma LongColors(t: Terminal, foreground: bool, index: int, red: int, green: int, blue: int)
    requires WellFormed(t)
    ensures var k := if foreground then 38 else 48;
            var indexed := Color(IndexedKind, Clamp(index, 255), Rgb(0, 0, 0));
            var rgb := Color(RgbKind, 0, Rgb(Clamp(red, 255), Clamp(green, 255), Clamp(blue, 255)));
            && Apply(t, SetGraphicsRendition([k, 5, index])) ==
               t.(style := if foreground then t.style.(foreground := indexed) else t.style.(background := indexed),
                  damaged := true)
            && Apply(t, SetGraphicsRendition([k, 2, red, green, blue])) ==
               t.(style := if foreground then t.style.(foreground := rgb) else t.style.(background := rgb),
                  damaged := true)
  {
    hide ApplyParameter, Apply, WellFormed;
    var k := if foreground then 38 else 48;
    StyleOnly(t, [k, 5, index]);
    StyleOnly(t, [k, 2, red, green, blue]);
    LastCommand(t.style, [k, 5, index]);
    LastCommand(t.style, [k, 2, red, green, blue]);
  }

  /** No parameter, zero, and anything negative set the default style; 39 and 49 set one default colour. */
  lemma DefaultStyles(t: Terminal, p: int)
    requires WellFormed(t) && p <= 0
    ensures Apply(t, SetGraphicsRendition([])) == Apply(t, SetGraphicsRendition([p])) == t.(style := SPACE.style, damaged := true)
    ensures Apply(t, SetGraphicsRendition([39])) ==
            t.(style := t.style.(foreground := SPACE.style.foreground), damaged := true)
    ensures Apply(t, SetGraphicsRendition([49])) ==
            t.(style := t.style.(background := SPACE.style.background), damaged := true)
  {
    hide Apply, WellFormed, WithAttribute;
    StyleOnly(t, []);
    StyleOnly(t, [p]);
    StyleOnly(t, [39]);
    StyleOnly(t, [49]);
    assert [p][1..] == [];
    OneParameter(t.style, 0);
    OneParameter(t.style, 39);
    OneParameter(t.style, 49);
  }

  /** Every other number does nothing: 5, 6, 8, 21 and 25 among them. */
  lemma UnknownParameters(t: Terminal, p: int)
    requires WellFormed(t) && p > 0
    requires !(p <= 4) && p != 7 && p != 9 && !(22 <= p <= 24) && p != 27 && p != 29
    requires !(30 <= p <= 49) && !(90 <= p <= 97) && !(100 <= p <= 107)
    ensures Apply(t, SetGraphicsRendition([p])) == t.(damaged := true)
  {
    hide Apply, WellFormed, WithAttribute;
    StyleOnly(t, [p]);
    OneParameter(t.style, p);
  }

  lemma OneParameter(s: CellStyle, p: int)
    requires p >= 0 && p != 38 && p != 48
    ensures ApplyCommands(s, [p]) == ApplyParameter(s, p)
  {
    hide ApplyParameter;
    assert [p][1..] == [];
  }

  /** The parameter that switches a flag on, and the one that switches it off, with whatever goes off with it. */
  function OnParameter(a: CellAttribute): int {
    match a
    case Bold => 1
    case Dim => 2
    case Italic => 3
    case Underline => 4
    case Inverse => 7
    case Strikethrough => 9
  }

  function OffParameter(a: CellAttribute): int {
    match a
    case Bold => 22
    case Dim => 22
    case Italic => 23
    case Underline => 24
    case Inverse => 27
    case Strikethrough => 29
  }

  predicate OffTogether(a: CellAttribute, b: CellAttribute) {
    a == b || (a == Bold && b == Dim) || (a == Dim && b == Bold)
  }

  /** Each flag can be switched alone, except that bold and dim go off together; nothing else changes. */
  lemma FlagSwitches(t: Terminal, a: CellAttribute, b: CellAttribute)
    requires WellFormed(t)
    ensures var on := Apply(t, SetGraphicsRendition([OnParameter(a)]));
            && HasAttribute(on.style.attributes, b) == (a == b || HasAttribute(t.style.attributes, b))
            && on == t.(style := t.style.(attributes := on.style.attributes), damaged := true)
    ensures var off := Apply(t, SetGraphicsRendition([OffParameter(a)]));
            && HasAttribute(off.style.attributes, b) == (!OffTogether(a, b) && HasAttribute(t.style.attributes, b))
            && off == t.(style := t.style.(attributes := off.style.attributes), damaged := true)
  {
    hide WithAttribute, HasAttribute, Apply, WellFormed;
    StyleOnly(t, [OnParameter(a)]);
    StyleOnly(t, [OffParameter(a)]);
    OneParameter(t.style, OnParameter(a));
    OneParameter(t.style, OffParameter(a));
    FlagBit(t.style, a, b);
    FlagBit(t.style, Bold, b);
    FlagBit(WithAttribute(t.style, Bold, false), Dim, b);
  }

  lemma FlagBit(s: CellStyle, a: CellAttribute, b: CellAttribute)
    ensures HasAttribute(WithAttribute(s, a, true).attributes, b) == (a == b || HasAttribute(s.attributes, b))
    ensures HasAttribute(WithAttribute(s, a, false).attributes, b) == (a != b && HasAttribute(s.attributes, b))
    ensures WithAttribute(s, a, true) == s.(attributes := WithAttribute(s, a, true).attributes)
    ensures WithAttribute(s, a, false) == s.(attributes := WithAttribute(s, a, false).attributes)
  {
    hide HasAttribute, AttributeMask;
    FlagOn(s.attributes, a, b);
    FlagOff(s.attributes, a, b);
  }

  lemma FlagOn(x: bv16, a: CellAttribute, b: CellAttribute)
    ensures HasAttribute(x | AttributeMask(a), b) == (a == b || HasAttribute(x, b))
  {
    hide AttributeMask;
    BitOn(x, a, b);
    MasksAreDisjoint(b, b);
  }

  lemma FlagOff(x: bv16, a: CellAttribute, b: CellAttribute)
    ensures HasAttribute(x & !AttributeMask(a), b) == (a != b && HasAttribute(x, b))
  {
    hide AttributeMask;
    BitOff(x, a, b);
  }

  lemma BitOn(x: bv16, a: CellAttribute, b: CellAttribute)
    ensures (x | AttributeMask(a)) & AttributeMask(b) == if a == b then AttributeMask(b) else x & AttributeMask(b)
  {
    MasksAreDisjoint(a, b);
    SameBit(x, AttributeMask(a));
    if a != b {
      OtherBit(x, AttributeMask(a), AttributeMask(b));
    }
  }

  lemma BitOff(x: bv16, a: CellAttribute, b: CellAttribute)
    ensures (x & !AttributeMask(a)) & AttributeMask(b) == if a == b then 0 else x & AttributeMask(b)
  {
    MasksAreDisjoint(a, b);
    SameBit(x, AttributeMask(a));
    if a != b {
      OtherBit(x, AttributeMask(a), AttributeMask(b));
    }
  }

  lemma SameBit(x: bv16, m: bv16)
    ensures (x | m) & m == m && (x & !m) & m == 0
  {
  }

  lemma OtherBit(x: bv16, m: bv16, n: bv16)
    requires m & n == 0
    ensures (x | m) & n == x & n && (x & !m) & n == x & n
  {
  }

  lemma MasksAreDisjoint(a: CellAttribute, b: CellAttribute)
    ensures if a == b then AttributeMask(a) != 0 else AttributeMask(a) & AttributeMask(b) == 0
  {
  }

  // ---- Round trip ----

  function AttributeParameter(attributes: bv16, a: CellAttribute): seq<int> {
    if HasAttribute(attributes, a) then [OnParameter(a)] else []
  }

  function ColorParameters(foreground: bool, c: Color): seq<int> {
    match c.kind
    case DefaultKind => [if foreground then 39 else 49]
    case IndexedKind => [if foreground then 38 else 48, 5, c.index]
    case RgbKind => [if foreground then 38 else 48, 2, c.rgb.red, c.rgb.green, c.rgb.blue]
  }

  const ATTRIBUTES := [Bold, Dim, Italic, Underline, Inverse, Strikethrough]

  function AttributeParameters(attributes: bv16, flags: seq<CellAttribute>): seq<int> {
    if flags == [] then []
    else AttributeParameter(attributes, flags[0]) + AttributeParameters(attributes, flags[1..])
  }

  /** The parameters that set a style outright: a reset, its attributes, its two colours. */
  function StyleParameters(s: CellStyle): seq<int> {
    [0] + (AttributeParameters(s.attributes, ATTRIBUTES)
    + (ColorParameters(true, s.foreground) + ColorParameters(false, s.background)))
  }

  lemma ColorRoundTrip(s: CellStyle, foreground: bool, c: Color)
    requires CanonicalColor(c)
    ensures Complete(ColorParameters(foreground, c))
    ensures ApplyCommands(s, ColorParameters(foreground, c)) == WithColor(s, foreground, c)
  {
    hide ApplyParameter;
    var ps := ColorParameters(foreground, c);
    assert CommandLength(ps) == |ps|;
    assert ps[|ps|..] == [];
    PlainColor(s);
  }

  lemma PlainColor(s: CellStyle)
    ensures ApplyParameter(s, 39) == WithColor(s, true, DEFAULT_COLOR)
    ensures ApplyParameter(s, 49) == WithColor(s, false, DEFAULT_COLOR)
  {
  }

  /** The flag `a` of `attributes`, if it is set, joins the style. */
  function AddFlag(s: CellStyle, attributes: bv16, a: CellAttribute): CellStyle {
    s.(attributes := s.attributes | (attributes & AttributeMask(a)))
  }

  function AddFlags(s: CellStyle, attributes: bv16, flags: seq<CellAttribute>): CellStyle
    decreases |flags|
  {
    if flags == [] then s else AddFlags(AddFlag(s, attributes, flags[0]), attributes, flags[1..])
  }

  lemma AttributeApplied(s: CellStyle, attributes: bv16, a: CellAttribute, rest: seq<int>)
    ensures var ps := AttributeParameter(attributes, a);
            && Complete(ps)
            && ApplyCommands(s, ps + rest) == ApplyCommands(AddFlag(s, attributes, a), rest)
  {
    hide Complete;
    var ps := AttributeParameter(attributes, a);
    SingleParameter(s, attributes, a);
    ApplyConcat(s, ps, rest);
  }

  lemma SingleParameter(s: CellStyle, attributes: bv16, a: CellAttribute)
    ensures var ps := AttributeParameter(attributes, a);
            && Complete(ps)
            && ApplyCommands(s, ps) == AddFlag(s, attributes, a)
  {
    hide AddFlag, HasAttribute, WithAttribute;
    var ps := AttributeParameter(attributes, a);
    FlagSet(s, attributes, a);
    if ps != [] {
      assert ps[1..] == [];
      assert ApplyCommands(s, ps) == ApplyParameter(s, ps[0]);
    }
  }

  lemma FlagSet(s: CellStyle, attributes: bv16, a: CellAttribute)
    ensures AddFlag(s, attributes, a) == if HasAttribute(attributes, a) then WithAttribute(s, a, true) else s
  {
    if HasAttribute(attributes, a) {
      assert attributes & AttributeMask(a) == AttributeMask(a);
    } else {
      assert s.attributes | 0 == s.attributes;
    }
  }

  lemma {:induction false} AttributesApplied(s: CellStyle, attributes: bv16, flags: seq<CellAttribute>, rest: seq<int>)
    ensures ApplyCommands(s, AttributeParameters(attributes, flags) + rest)
         == ApplyCommands(AddFlags(s, attributes, flags), rest)
    decreases |flags|
  {
    hide ApplyCommands, AttributeParameter, AddFlag, Complete;
    if flags == [] {
      EmptyFirst(rest);
    } else {
      var first, others := AttributeParameter(attributes, flags[0]), AttributeParameters(attributes, flags[1..]);
      AppendAssoc(first, others, rest);
      AttributeApplied(s, attributes, flags[0], others + rest);
      AttributesApplied(AddFlag(s, attributes, flags[0]), attributes, flags[1..], rest);
    }
  }

  lemma SixBits(attributes: bv16)
    requires attributes & 0xFFC0 == 0
    ensures AddFlags(DEFAULT_STYLE, attributes, ATTRIBUTES) == DEFAULT_STYLE.(attributes := attributes)
  {
    AddSix(DEFAULT_STYLE, attributes);
    assert 0 | (attributes & 1) | (attributes & 2) | (attributes & 4) | (attributes & 8) | (attributes & 16)
           | (attributes & 32) == attributes;
  }

  lemma AddSix(s: CellStyle, attributes: bv16)
    ensures AddFlags(s, attributes, ATTRIBUTES) ==
            AddFlag(AddFlag(AddFlag(AddFlag(AddFlag(AddFlag(s, attributes, Bold), attributes, Dim), attributes, Italic),
                    attributes, Underline), attributes, Inverse), attributes, Strikethrough)
  {
    hide AddFlag;
    assert ATTRIBUTES[1..] == [Dim, Italic, Underline, Inverse, Strikethrough];
    assert ATTRIBUTES[1..][1..] == [Italic, Underline, Inverse, Strikethrough];
    assert ATTRIBUTES[1..][1..][1..] == [Underline, Inverse, Strikethrough];
    assert ATTRIBUTES[1..][1..][1..][1..] == [Inverse, Strikethrough];
    assert ATTRIBUTES[1..][1..][1..][1..][1..] == [Strikethrough];
    assert ATTRIBUTES[1..][1..][1..][1..][1..][1..] == [];
  }

  /** Whatever the style was before, the parameters of a canonical style set exactly that style. */
  lemma StyleRoundTrip(t: Terminal, s: CellStyle)
    requires WellFormed(t) && CanonicalStyle(s)
    ensures Apply(t, SetGraphicsRendition(StyleParameters(s))) == t.(style := s, damaged := true)
  {
    hide Apply, WellFormed, StyleParameters, Rendition, CanonicalStyle;
    StyleOnly(t, StyleParameters(s));
    CommandsSetStyle(t.style, s);
    RenditionIs(t.style, StyleParameters(s));
  }

  lemma CommandsSetStyle(before: CellStyle, s: CellStyle)
    requires CanonicalStyle(s)
    ensures StyleParameters(s) != [] && ApplyCommands(before, StyleParameters(s)) == s
  {
    hide ApplyCommands, AttributeParameters, ColorParameters, Complete;
    var fg, bg := ColorParameters(true, s.foreground), ColorParameters(false, s.background);
    var plain := DEFAULT_STYLE.(attributes := s.attributes);
    ResetFirst(before, AttributeParameters(s.attributes, ATTRIBUTES) + (fg + bg));
    AttributesApplied(DEFAULT_STYLE, s.attributes, ATTRIBUTES, fg + bg);
    SixBits(s.attributes);
    ColorRoundTrip(plain, true, s.foreground);
    ApplyConcat(plain, fg, bg);
    ColorRoundTrip(WithColor(plain, true, s.foreground), false, s.background);
  }

  lemma ResetFirst(before: CellStyle, rest: seq<int>)
    ensures ApplyCommands(before, [0] + rest) == ApplyCommands(DEFAULT_STYLE, rest)
  {
    assert ([0] + rest)[1..] == rest;
  }

  // ---- Styles stay canonical ----

  lemma AttributeStaysCanonical(s: CellStyle, a: CellAttribute, enabled: bool)
    requires CanonicalStyle(s)
    ensures CanonicalStyle(WithAttribute(s, a, enabled))
  {
    hide CanonicalColor;
  }

  lemma ParameterStaysCanonical(s: CellStyle, p: int)
    requires CanonicalStyle(s)
    ensures CanonicalStyle(ApplyParameter(s, p))
  {
    hide WithAttribute;
    AttributeStaysCanonical(s, Bold, false);
    forall a: CellAttribute, enabled: bool
      ensures CanonicalStyle(WithAttribute(s, a, enabled))
    {
      AttributeStaysCanonical(s, a, enabled);
    }
    AttributeStaysCanonical(WithAttribute(s, Bold, false), Dim, false);
  }

  lemma {:induction false} CommandsStayCanonical(s: CellStyle, ps: seq<int>)
    requires CanonicalStyle(s)
    ensures CanonicalStyle(ApplyCommands(s, ps))
    decreases |ps|
  {
    hide CanonicalStyle, ApplyCommand;
    if ps != [] {
      CommandStaysCanonical(s, ps);
      CommandsStayCanonical(ApplyCommand(s, ps), ps[CommandLength(ps)..]);
    }
  }

  lemma CommandStaysCanonical(s: CellStyle, ps: seq<int>)
    requires ps != [] && CanonicalStyle(s)
    ensures CanonicalStyle(ApplyCommand(s, ps))
  {
    hide ApplyParameter;
    if ps[0] != 38 && ps[0] != 48 {
      ParameterStaysCanonical(s, if ps[0] < 0 then 0 else ps[0]);
    }
  }

  lemma EventStaysCanonical(t: Terminal, e: Event)
    requires WellFormed(t) && CanonicalStyle(t.style)
    ensures CanonicalStyle(Handle(t, e).style)
  {
    hide PrintCodePoint, Control, ApplyCommands, EraseScreen, EraseRow, Fit, BlankGrid;
    if e.Perform? {
      match e.op {
        case Print(c) => PrintFrame(t, c);
        case ExecuteControl(control) => ControlFrame(t, control);
        case SetGraphicsRendition(ps) => CommandsStayCanonical(t.style, if ps == [] then [0] else ps);
        case _ =>
      }
    }
  }

  /** In every run the current style has canonical colours and no attribute bit beyond the six. */
  lemma {:induction false} StyleStaysCanonical(t: Terminal, events: seq<Event>)
    requires WellFormed(t) && CanonicalStyle(t.style)
    ensures CanonicalStyle(HandleAll(t, events).style)
    decreases |events|
  {
    hide Handle, WellFormed, CanonicalStyle;
    if events != [] {
      EventStaysCanonical(t, events[0]);
      StyleStaysCanonical(Handle(t, events[0]), events[1..]);
    }
  }
}
