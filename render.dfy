/** The response serialiser shared by all three servers: `render_xml` wraps a one-key value
    in a namespaced root element and `_render_parts` turns the value below it into text.
    Dictionaries are sequences of entries, so nothing is claimed about the order in which a
    Python dictionary would hand its entries out. The string escaping and the tag-name
    encoding the servers borrow from their web framework are parameters. */
module Render {

  import opened Base
  import opened Text

  const Namespace := "http://doc.s3.amazonaws.com/2006-03-01"

  /** What precedes the root element: the XML declaration, a newline and one space. */
  const Declaration := "<?xml version=\"1.0\" encoding=\"UTF-8\"?>\n "

  /** A `datetime` as `strftime` sees it: calendar fields down to the second. */
  datatype Clock = Clock(year: int, month: int, day: int, hour: int, minute: int, second: int)

  predicate ValidClock(c: Clock) {
    && 1 <= c.year <= 9999 && 1 <= c.month <= 12 && 1 <= c.day <= 31
    && 0 <= c.hour < 24 && 0 <= c.minute < 60 && 0 <= c.second < 60
  }

  type DateTime = c: Clock | ValidClock(c) witness Clock(1970, 1, 1, 0, 0, 0)

  /** The values a handler hands to the renderer. */
  datatype Value =
    | Str(s: string)                      // `str` or `unicode`
    | Int(i: int)                         // `int` or `long`
    | Bool(b: bool)                       // `bool`, a subclass of `int`
    | Time(t: DateTime)
    | Dict(entries: seq<(string, Value)>)
    | List(items: seq<Value>)
    | Null                                // `None`
    | Float(x: real)

  /** One element of `parts`: an open tag, a close tag, or escaped text. */
  datatype Part = Open(name: string) | Close(name: string) | Chunk(text: string)

  /** `'<%s>' % utf8(name)`, `'</%s>' % utf8(name)`, or the text itself. */
  function Show(p: Part, utf8: string -> string): string {
    match p
    case Open(n) => "<" + utf8(n) + ">"
    case Close(n) => "</" + utf8(n) + ">"
    case Chunk(t) => t
  }

  /** `''.join(parts)`. */
  function Join(ps: seq<Part>, utf8: string -> string): string
    decreases |ps|
  {
    if ps == [] then "" else Show(ps[0], utf8) + Join(ps[1..], utf8)
  }

  function Pow10(w: nat): nat {
    if w == 0 then 1 else 10 * Pow10(w - 1)
  }

  /** `n` as exactly `w` decimal digits, zero-padded on the left. */
  function Fixed(n: nat, w: nat): (r: string)
    ensures |r| == w
    ensures forall i :: 0 <= i < |r| ==> IsDigit(r[i])
    decreases w
  {
    if w == 0 then [] else Fixed(n / 10, w - 1) + [DigitChar(n % 10)]
  }

  lemma {:induction false} FixedValue(n: nat, w: nat)
    requires n < Pow10(w)
    ensures DigitsValue(Fixed(n, w)) == n
    decreases w
  {
    if w > 0 {
      assert n / 10 < Pow10(w - 1);
      FixedValue(n / 10, w - 1);
      var r := Fixed(n, w);
      assert r[..|r| - 1] == Fixed(n / 10, w - 1);
    }
  }

  /** `strftime("%Y-%m-%dT%H:%M:%S.000Z")`. Python 2 refuses years before 1900. */
  function FormatTime(t: DateTime): Result<string> {
    if t.year < 1900 then Err(ValueError) else Ok(Stamp(t))
  }

  function Stamp(t: DateTime): string {
    Fixed(t.year, 4) + "-" + Fixed(t.month, 2) + "-" + Fixed(t.day, 2) + "T"
    + Fixed(t.hour, 2) + ":" + Fixed(t.minute, 2) + ":" + Fixed(t.second, 2) + ".000Z"
  }

  /** Reads a field of `w` digits at position `i`. */
  function Field(s: string, i: nat, w: nat): Option<nat>
    requires i + w <= |s|
  {
    if AllDigits(s[i..i + w]) then Some(DigitsValue(s[i..i + w])) else None
  }

  /** Reads a timestamp back from the rendered form (the client's side of the format). */
  function ParseTime(s: string): Option<DateTime> {
    if |s| != 24 || s[4] != '-' || s[7] != '-' || s[10] != 'T' || s[13] != ':' || s[16] != ':'
       || s[19..] != ".000Z" then None
    else
      var y, mo, d, h, mi, se := Field(s, 0, 4), Field(s, 5, 2), Field(s, 8, 2),
                                 Field(s, 11, 2), Field(s, 14, 2), Field(s, 17, 2);
      if y.None? || mo.None? || d.None? || h.None? || mi.None? || se.None? then None
      else
        var c := Clock(y.value, mo.value, d.value, h.value, mi.value, se.value);
        if ValidClock(c) then Some(c) else None
  }

  lemma FixedField(s: string, i: nat, n: nat, w: nat)
    requires i + w <= |s| && w > 0 && n < Pow10(w) && s[i..i + w] == Fixed(n, w)
    ensures Field(s, i, w) == Some(n)
  {
    FixedValue(n, w);
  }

  /** Where each field sits in a rendered timestamp. */
  lemma StampLayout(t: DateTime)
    ensures var s := Stamp(t);
      && |s| == 24 && s[4] == '-' && s[7] == '-' && s[10] == 'T' && s[13] == ':' && s[16] == ':'
      && s[19..] == ".000Z"
      && s[0..4] == Fixed(t.year, 4) && s[5..7] == Fixed(t.month, 2) && s[8..10] == Fixed(t.day, 2)
      && s[11..13] == Fixed(t.hour, 2) && s[14..16] == Fixed(t.minute, 2) && s[17..19] == Fixed(t.second, 2)
  {
    var p1 := Fixed(t.year, 4);
    var p2 := p1 + "-";
    var p3 := p2 + Fixed(t.month, 2);
    var p4 := p3 + "-";
    var p5 := p4 + Fixed(t.day, 2);
    var p6 := p5 + "T";
    var p7 := p6 + Fixed(t.hour, 2);
    var p8 := p7 + ":";
    var p9 := p8 + Fixed(t.minute, 2);
    var p10 := p9 + ":";
    var p11 := p10 + Fixed(t.second, 2);
    var s := Stamp(t);
    assert s == p11 + ".000Z";
    assert s[..|p11|] == p11 && s[|p11|..] == ".000Z";
    Extend(s, p10, Fixed(t.second, 2));
    Extend(s, p9, ":");
    Extend(s, p8, Fixed(t.minute, 2));
    Extend(s, p7, ":");
    Extend(s, p6, Fixed(t.hour, 2));
    Extend(s, p5, "T");
    Extend(s, p4, Fixed(t.day, 2));
    Extend(s, p3, "-");
    Extend(s, p2, Fixed(t.month, 2));
    Extend(s, p1, "-");
  }

  /** A prefix `p + f` of `s` places `f` right after `p`. */
  lemma Extend(s: string, p: string, f: string)
    requires |p + f| <= |s| && s[..|p + f|] == p + f
    ensures s[..|p|] == p && s[|p|..|p| + |f|] == f
    ensures |f| == 1 ==> s[|p|] == f[0]
  {
    assert s[..|p|] == (p + f)[..|p|];
    assert s[|p|..|p| + |f|] == (p + f)[|p|..];
    if |f| == 1 {
      assert s[|p|] == (p + f)[|p|];
    }
  }

  lemma ParseStamp(t: DateTime)
    ensures ParseTime(Stamp(t)) == Some(t)
  {
    var s := Stamp(t);
    StampLayout(t);
    assert Pow10(2) == 100 && Pow10(4) == 10000;
    FixedField(s, 0, t.year, 4);
    FixedField(s, 5, t.month, 2);
    FixedField(s, 8, t.day, 2);
    FixedField(s, 11, t.hour, 2);
    FixedField(s, 14, t.minute, 2);
    FixedField(s, 17, t.second, 2);
  }

  /** The timestamp format loses nothing below a second: parsing it gives the time back. */
  lemma TimeRoundTrip(t: DateTime)
    ensures t.year < 1900 <==> FormatTime(t) == Err(ValueError)
    ensures FormatTime(t).Ok? ==> |FormatTime(t).value| == 24 && ParseTime(FormatTime(t).value) == Some(t)
  {
    if t.year >= 1900 {
      StampLayout(t);
      ParseStamp(t);
    }
  }

  /** The first failure of two consecutive renderings, or both outputs in order. */
  function Then(a: Result<seq<Part>>, b: Result<seq<Part>>): Result<seq<Part>> {
    if a.Err? then a else if b.Err? then b else Ok(a.value + b.value)
  }

  /** One `<name>…</name>` pair around a rendered child. */
  function Element(name: string, child: Result<seq<Part>>): Result<seq<Part>> {
    if child.Err? then child else Ok([Open(name)] + child.value + [Close(name)])
  }

  /** `_render_parts(value, [])`: the parts rendering `value` appends, or the exception. */
  function Parts(v: Value, esc: string -> string): Result<seq<Part>>
    decreases v, 0
  {
    match v
    case Str(s) => Ok([Chunk(esc(s))])
    case Int(i) => Ok([Chunk(IntToString(i))])
    case Bool(b) => Ok([Chunk(if b then "True" else "False")])
    case Time(t) =>
      var f := FormatTime(t);
      if f.Err? then Err(f.error) else Ok([Chunk(f.value)])
    case Dict(es) => EntriesParts(es, esc)
    case _ => Err(UnknownValueType)
  }

  /** The `for name, subvalue in value.iteritems()` loop. */
  function EntriesParts(es: seq<(string, Value)>, esc: string -> string): Result<seq<Part>>
    decreases es
  {
    if es == [] then Ok([]) else Then(EntryParts(es[0], esc), EntriesParts(es[1..], esc))
  }

  /** One dictionary entry: a list value is expanded, anything else is a one-element list. */
  function EntryParts(e: (string, Value), esc: string -> string): Result<seq<Part>>
    decreases e
  {
    if e.1.List? then ItemsParts(e.0, e.1.items, esc) else Element(e.0, Parts(e.1, esc))
  }

  /** The `for subsubvalue in subvalue` loop. */
  function ItemsParts(name: string, items: seq<Value>, esc: string -> string): Result<seq<Part>>
    decreases items
  {
    if items == [] then Ok([])
    else Then(Element(name, Parts(items[0], esc)), ItemsParts(name, items[1..], esc))
  }

  // ----- the renderer as written: appending into the caller's list -----

  /** What `parts` holds after `_render_parts(v, parts)` returns, starting from `acc`. */
  function PartsInto(v: Value, esc: string -> string, acc: seq<Part>): Result<seq<Part>>
    decreases v, 0
  {
    match v
    case Str(s) => Ok(acc + [Chunk(esc(s))])
    case Int(i) => Ok(acc + [Chunk(IntToString(i))])
    case Bool(b) => Ok(acc + [Chunk(if b then "True" else "False")])
    case Time(t) =>
      var f := FormatTime(t);
      if f.Err? then Err(f.error) else Ok(acc + [Chunk(f.value)])
    case Dict(es) => EntriesInto(es, esc, acc)
    case _ => Err(UnknownValueType)
  }

  function EntriesInto(es: seq<(string, Value)>, esc: string -> string, acc: seq<Part>): Result<seq<Part>>
    decreases es
  {
    if es == [] then Ok(acc)
    else
      var a := EntryInto(es[0], esc, acc);
      if a.Err? then a else EntriesInto(es[1..], esc, a.value)
  }

  function EntryInto(e: (string, Value), esc: string -> string, acc: seq<Part>): Result<seq<Part>>
    decreases e
  {
    if e.1.List? then ItemsInto(e.0, e.1.items, esc, acc)
    else
      var a := PartsInto(e.1, esc, acc + [Open(e.0)]);
      if a.Err? then a else Ok(a.value + [Close(e.0)])
  }

  function ItemsInto(name: string, items: seq<Value>, esc: string -> string, acc: seq<Part>): Result<seq<Part>>
    decreases items
  {
    if items == [] then Ok(acc)
    else
      var a := PartsInto(items[0], esc, acc + [Open(name)]);
      if a.Err? then a
      else ItemsInto(name, items[1..], esc, a.value + [Close(name)])
  }

  /** `acc` followed by a rendering, or the rendering's exception. */
  function After(acc: seq<Part>, r: Result<seq<Part>>): Result<seq<Part>> {
    if r.Err? then r else Ok(acc + r.value)
  }

  /** Appending into a shared list produces what was there followed by the value's parts. */
  lemma {:induction false} PartsIntoAppends(v: Value, esc: string -> string, acc: seq<Part>)
    ensures PartsInto(v, esc, acc) == After(acc, Parts(v, esc))
    decreases v, 0
  {
    match v
    case Dict(es) => EntriesIntoAppends(es, esc, acc);
    case _ =>
  }

  lemma {:induction false} EntriesIntoAppends(es: seq<(string, Value)>, esc: string -> string, acc: seq<Part>)
    ensures EntriesInto(es, esc, acc) == After(acc, EntriesParts(es, esc))
    decreases es
  {
    if es != [] {
      EntryIntoAppends(es[0], esc, acc);
      var a := EntryParts(es[0], esc);
      if a.Ok? {
        EntriesIntoAppends(es[1..], esc, acc + a.value);
        var b := EntriesParts(es[1..], esc);
        if b.Ok? {
          assert acc + a.value + b.value == acc + (a.value + b.value);
        }
      }
    } else {
      assert acc + [] == acc;
    }
  }

  lemma {:induction false} EntryIntoAppends(e: (string, Value), esc: string -> string, acc: seq<Part>)
    ensures EntryInto(e, esc, acc) == After(acc, EntryParts(e, esc))
    decreases e
  {
    if e.1.List? {
      ItemsIntoAppends(e.0, e.1.items, esc, acc);
    } else {
      PartsIntoAppends(e.1, esc, acc + [Open(e.0)]);
      var c := Parts(e.1, esc);
      if c.Ok? {
        assert acc + [Open(e.0)] + c.value + [Close(e.0)] == acc + ([Open(e.0)] + c.value + [Close(e.0)]);
      }
    }
  }

  lemma {:induction false} ItemsIntoAppends(name: string, items: seq<Value>, esc: string -> string, acc: seq<Part>)
    ensures ItemsInto(name, items, esc, acc) == After(acc, ItemsParts(name, items, esc))
    decreases items
  {
    if items != [] {
      PartsIntoAppends(items[0], esc, acc + [Open(name)]);
      var c := Parts(items[0], esc);
      if c.Ok? {
        var el := [Open(name)] + c.value + [Close(name)];
        assert acc + [Open(name)] + c.value + [Close(name)] == acc + el;
        ItemsIntoAppends(name, items[1..], esc, acc + el);
        var b := ItemsParts(name, items[1..], esc);
        if b.Ok? {
          assert acc + el + b.value == acc + (el + b.value);
        }
      }
    } else {
      assert acc + [] == acc;
    }
  }

  // ----- which values render -----

  /** Values made only of strings, integers, booleans, datetimes from 1900 on, and
      dictionaries whose entries hold such values or lists of them. */
  predicate Renderable(v: Value)
    decreases v, 0
  {
    match v
    case Str(_) => true
    case Int(_) => true
    case Bool(_) => true
    case Time(t) => t.year >= 1900
    case Dict(es) => forall i :: 0 <= i < |es| ==> MemberRenderable(es[i].1)
    case _ => false
  }

  /** A dictionary member: a list of renderable values, or a renderable value. */
  predicate MemberRenderable(m: Value)
    decreases m, 1
  {
    if m.List? then forall j :: 0 <= j < |m.items| ==> Renderable(m.items[j]) else Renderable(m)
  }

  /** Rendering raises exactly when an unsupported value (`None`, a float, a list outside a
      dictionary, a list inside a list) or a datetime before 1900 occurs. */
  lemma {:induction false} RenderableExactly(v: Value, esc: string -> string)
    ensures Parts(v, esc).Ok? <==> Renderable(v)
    decreases v, 0
  {
    match v
    case Dict(es) => EntriesRenderable(es, esc);
    case Time(t) => TimeRoundTrip(t);
    case _ =>
  }

  lemma {:induction false} EntriesRenderable(es: seq<(string, Value)>, esc: string -> string)
    ensures EntriesParts(es, esc).Ok? <==> forall i :: 0 <= i < |es| ==> MemberRenderable(es[i].1)
    decreases es
  {
    if es != [] {
      EntryRenderable(es[0], esc);
      EntriesRenderable(es[1..], esc);
      assert forall i :: 1 <= i < |es| ==> es[i] == es[1..][i - 1];
    }
  }

  lemma {:induction false} EntryRenderable(e: (string, Value), esc: string -> string)
    ensures EntryParts(e, esc).Ok? <==> MemberRenderable(e.1)
    decreases e
  {
    if e.1.List? {
      ItemsRenderable(e.0, e.1.items, esc);
    } else {
      RenderableExactly(e.1, esc);
    }
  }

  lemma {:induction false} ItemsRenderable(name: string, items: seq<Value>, esc: string -> string)
    ensures ItemsParts(name, items, esc).Ok? <==> forall j :: 0 <= j < |items| ==> Renderable(items[j])
    decreases items
  {
    if items != [] {
      RenderableExactly(items[0], esc);
      ItemsRenderable(name, items[1..], esc);
      assert forall j :: 1 <= j < |items| ==> items[j] == items[1..][j - 1];
    }
  }

  // ----- encodings of scalars and of dictionary members -----

  /** Integers and booleans go through `str`; reading the decimal text back gives the
      integer, and a boolean is spelled `True` or `False`. */
  lemma ScalarEncodings(i: int, b: bool, s: string, esc: string -> string)
    ensures Parts(Int(i), esc).Ok? && |Parts(Int(i), esc).value| == 1
    ensures ParseInt(Parts(Int(i), esc).value[0].text) == Some(i)
    ensures Parts(Bool(b), esc) == Ok([Chunk(if b then "True" else "False")])
    ensures Parts(Str(s), esc) == Ok([Chunk(esc(s))])
  {
    IntToStringRoundTrip(i);
  }

  /** A dictionary member that is not a list renders as the one-element list holding it, and
      an empty list renders as nothing. */
  lemma NonListIsSingleton(name: string, v: Value, esc: string -> string)
    requires !v.List?
    ensures EntryParts((name, v), esc) == EntryParts((name, List([v])), esc)
    ensures EntryParts((name, List([])), esc) == Ok([])
  {
    var el := Element(name, Parts(v, esc));
    assert ItemsParts(name, [v], esc) == Then(el, ItemsParts(name, [], esc));
    if el.Ok? {
      assert el.value + [] == el.value;
    }
  }

  lemma ThenAssociative(a: Result<seq<Part>>, b: Result<seq<Part>>, c: Result<seq<Part>>)
    ensures Then(Then(a, b), c) == Then(a, Then(b, c))
  {
    if a.Ok? && b.Ok? && c.Ok? {
      assert a.value + b.value + c.value == a.value + (b.value + c.value);
    }
  }

  /** A list member renders as its elements' `<name>…</name>` pairs one after the other:
      splitting the list splits the output, and each element gives one pair. */
  lemma {:induction false} ItemsSplit(name: string, xs: seq<Value>, ys: seq<Value>, esc: string -> string)
    ensures ItemsParts(name, xs + ys, esc) == Then(ItemsParts(name, xs, esc), ItemsParts(name, ys, esc))
    ensures |xs| == 1 ==> ItemsParts(name, xs, esc) == Element(name, Parts(xs[0], esc))
    decreases xs
  {
    if xs == [] {
      assert xs + ys == ys;
      var b := ItemsParts(name, ys, esc);
      if b.Ok? {
        assert [] + b.value == b.value;
      }
    } else {
      assert (xs + ys)[0] == xs[0] && (xs + ys)[1..] == xs[1..] + ys;
      ItemsSplit(name, xs[1..], ys, esc);
      ThenAssociative(Element(name, Parts(xs[0], esc)), ItemsParts(name, xs[1..], esc), ItemsParts(name, ys, esc));
      if |xs| == 1 {
        var el := Element(name, Parts(xs[0], esc));
        if el.Ok? {
          assert el.value + [] == el.value;
        }
      }
    }
  }

  /** A dictionary renders as its entries' renderings one after the other. */
  lemma {:induction false} EntriesSplit(xs: seq<(string, Value)>, ys: seq<(string, Value)>, esc: string -> string)
    ensures EntriesParts(xs + ys, esc) == Then(EntriesParts(xs, esc), EntriesParts(ys, esc))
    decreases xs
  {
    if xs == [] {
      assert xs + ys == ys;
      var b := EntriesParts(ys, esc);
      if b.Ok? {
        assert [] + b.value == b.value;
      }
    } else {
      assert (xs + ys)[0] == xs[0] && (xs + ys)[1..] == xs[1..] + ys;
      EntriesSplit(xs[1..], ys, esc);
      ThenAssociative(EntryParts(xs[0], esc), EntriesParts(xs[1..], esc), EntriesParts(ys, esc));
    }
  }

  // ----- nesting -----

  /** Scans parts left to right with a stack of open tag names: an open tag pushes, a close
      tag must name the innermost open element and pops. */
  function Nest(ps: seq<Part>, open: seq<string>): Option<seq<string>>
    decreases |ps|
  {
    if ps == [] then Some(open)
    else match ps[0]
      case Open(n) => Nest(ps[1..], open + [n])
      case Close(n) =>
        if open != [] && open[|open| - 1] == n then Nest(ps[1..], open[..|open| - 1]) else None
      case Chunk(_) => Nest(ps[1..], open)
  }

  /** Every close tag matches the innermost open element, and every element opened is closed. */
  ghost predicate WellNested(ps: seq<Part>) {
    forall open :: Nest(ps, open) == Some(open)
  }

  lemma {:induction false} NestAppend(a: seq<Part>, b: seq<Part>, open: seq<string>)
    ensures Nest(a + b, open) == if Nest(a, open).None? then None else Nest(b, Nest(a, open).value)
    decreases |a|
  {
    if a == [] {
      assert a + b == b;
    } else {
      assert (a + b)[0] == a[0] && (a + b)[1..] == a[1..] + b;
      match a[0]
      case Open(n) => NestAppend(a[1..], b, open + [n]);
      case Close(n) =>
        if open != [] && open[|open| - 1] == n {
          NestAppend(a[1..], b, open[..|open| - 1]);
        }
      case Chunk(_) => NestAppend(a[1..], b, open);
    }
  }

  lemma ThenNested(a: Result<seq<Part>>, b: Result<seq<Part>>)
    requires a.Ok? ==> WellNested(a.value)
    requires b.Ok? ==> WellNested(b.value)
    ensures Then(a, b).Ok? ==> WellNested(Then(a, b).value)
  {
    if a.Ok? && b.Ok? {
      forall open ensures Nest(a.value + b.value, open) == Some(open) {
        NestAppend(a.value, b.value, open);
      }
    }
  }

  lemma ElementNested(name: string, c: Result<seq<Part>>)
    requires c.Ok? ==> WellNested(c.value)
    ensures Element(name, c).Ok? ==> WellNested(Element(name, c).value)
  {
    if c.Ok? {
      forall open ensures Nest([Open(name)] + c.value + [Close(name)], open) == Some(open) {
        var inner := open + [name];
        NestAppend([Open(name)] + c.value, [Close(name)], open);
        NestAppend([Open(name)], c.value, open);
        assert Nest([Open(name)], open) == Some(inner) by {
          assert [Open(name)][1..] == [];
        }
        assert inner[..|inner| - 1] == open;
        assert Nest([Close(name)], inner) == Some(open) by {
          assert [Close(name)][1..] == [];
        }
      }
    }
  }

  /** Every open tag the renderer emits is closed by the matching close tag after its child. */
  lemma {:induction false} PartsNested(v: Value, esc: string -> string)
    ensures Parts(v, esc).Ok? ==> WellNested(Parts(v, esc).value)
    decreases v, 0
  {
    match v
    case Dict(es) => EntriesNested(es, esc);
    case Str(s) => ChunkNested(esc(s));
    case Int(i) => ChunkNested(IntToString(i));
    case Bool(b) => ChunkNested(if b then "True" else "False");
    case Time(t) =>
      if FormatTime(t).Ok? {
        ChunkNested(FormatTime(t).value);
      }
    case _ =>
  }

  lemma ChunkNested(t: string)
    ensures WellNested([Chunk(t)])
  {
    forall open ensures Nest([Chunk(t)], open) == Some(open) {
      assert [Chunk(t)][1..] == [];
    }
  }

  lemma {:induction false} EntriesNested(es: seq<(string, Value)>, esc: string -> string)
    ensures EntriesParts(es, esc).Ok? ==> WellNested(EntriesParts(es, esc).value)
    decreases es
  {
    if es == [] {
      forall open ensures Nest([], open) == Some(open) {}
    } else {
      EntryNested(es[0], esc);
      EntriesNested(es[1..], esc);
      ThenNested(EntryParts(es[0], esc), EntriesParts(es[1..], esc));
    }
  }

  lemma {:induction false} EntryNested(e: (string, Value), esc: string -> string)
    ensures EntryParts(e, esc).Ok? ==> WellNested(EntryParts(e, esc).value)
    decreases e
  {
    if e.1.List? {
      ItemsNested(e.0, e.1.items, esc);
    } else {
      PartsNested(e.1, esc);
      ElementNested(e.0, Parts(e.1, esc));
    }
  }

  lemma {:induction false} ItemsNested(name: string, items: seq<Value>, esc: string -> string)
    ensures ItemsParts(name, items, esc).Ok? ==> WellNested(ItemsParts(name, items, esc).value)
    decreases items
  {
    if items == [] {
      forall open ensures Nest([], open) == Some(open) {}
    } else {
      PartsNested(items[0], esc);
      ElementNested(name, Parts(items[0], esc));
      ItemsNested(name, items[1..], esc);
      ThenNested(Element(name, Parts(items[0], esc)), ItemsParts(name, items[1..], esc));
    }
  }

  // ----- the document -----

  /** The root start tag: the name with the fixed namespace attribute. */
  function RootTag(name: string, utf8: string -> string): string {
    "<" + utf8(name) + " xmlns=\"" + Namespace + "\">"
  }

  /** `render_xml(value)`: the body `finish` receives, or the exception. */
  function RenderXml(value: Value, esc: string -> string, utf8: string -> string): (r: Result<string>)
    ensures !(value.Dict? && |value.entries| == 1) ==> r == Err(AssertionError)
    ensures r.Ok? <==> value.Dict? && |value.entries| == 1 && Renderable(value.entries[0].1)
  {
    if !value.Dict? || |value.entries| != 1 then Err(AssertionError)
    else
      var name := value.entries[0].0;
      var body := Parts(value.entries[0].1, esc);
      RenderableExactly(value.entries[0].1, esc);
      if body.Err? then Err(body.error)
      else Ok(Document(name, body.value, utf8))
  }

  /** The text `render_xml` finishes with, around the rendered parts `ps` of the root value. */
  function Document(name: string, ps: seq<Part>, utf8: string -> string): string {
    Declaration + RootTag(name, utf8) + Join(ps, utf8) + Show(Close(name), utf8)
  }

  /** A rendered document is the declaration, the namespaced root start tag, the value's
      well-nested parts and the root's close tag. */
  lemma DocumentShape(value: Value, esc: string -> string, utf8: string -> string)
    requires RenderXml(value, esc, utf8).Ok?
    ensures Parts(value.entries[0].1, esc).Ok? && WellNested(Parts(value.entries[0].1, esc).value)
    ensures RenderXml(value, esc, utf8).value
            == Declaration + RootTag(value.entries[0].0, utf8)
               + Join(Parts(value.entries[0].1, esc).value + [Close(value.entries[0].0)], utf8)
  {
    PartsNested(value.entries[0].1, esc);
    DocumentText(value, esc, utf8);
  }

  lemma DocumentText(value: Value, esc: string -> string, utf8: string -> string)
    requires RenderXml(value, esc, utf8).Ok?
    ensures Parts(value.entries[0].1, esc).Ok?
    ensures RenderXml(value, esc, utf8).value
            == Declaration + RootTag(value.entries[0].0, utf8)
               + Join(Parts(value.entries[0].1, esc).value + [Close(value.entries[0].0)], utf8)
  {
    DocumentCloses(value.entries[0].0, Parts(value.entries[0].1, esc).value, utf8);
  }

  /** The root's close tag is the last part of the document. */
  lemma DocumentCloses(name: string, ps: seq<Part>, utf8: string -> string)
    ensures Document(name, ps, utf8) == Declaration + RootTag(name, utf8) + Join(ps + [Close(name)], utf8)
  {
    var head := Declaration + RootTag(name, utf8);
    var close := Show(Close(name), utf8);
    JoinAppend(ps, [Close(name)], utf8);
    assert Join([Close(name)], utf8) == close by {
      assert [Close(name)][1..] == [];
      assert close + "" == close;
    }
    assert head + Join(ps, utf8) + close == head + (Join(ps, utf8) + close);
  }

  lemma {:induction false} JoinAppend(a: seq<Part>, b: seq<Part>, utf8: string -> string)
    ensures Join(a + b, utf8) == Join(a, utf8) + Join(b, utf8)
    decreases |a|
  {
    if a == [] {
      assert a + b == b;
    } else {
      assert (a + b)[0] == a[0] && (a + b)[1..] == a[1..] + b;
      JoinAppend(a[1..], b, utf8);
    }
  }
}
