/**
 * The colour legend: its own copy of the type-to-colour lookup, the fixed
 * category list, one label per category, and the labels joined by `<br>`.
 */
module Legend {
  import opened Wrappers
  import opened GraphData
  import NetworkOverlay

  /** The legend's categories, in the order they are listed. */
  const Categories: seq<string> := ["u-bahn", "s-bahn", "bus", "strassenbahn"]

  /**
   * The legend's copy of the lookup: grey exactly for the values that are
   * not one of the listed categories.
   */
  function ColorByType(t: Field): (r: string)
    ensures r == "#7C7C7C" <==> !(t.Some? && t.value.Text? && t.value.s in Categories)
    ensures |r| == 7
  {
    if t == Some(Text("u-bahn")) then "#003688"
    else if t == Some(Text("s-bahn")) then "#006F35"
    else if t == Some(Text("bus")) then "#FF4900"
    else if t == Some(Text("strassenbahn")) then "#D82020"
    else "#7C7C7C"
  }

  /** Both copies of the lookup agree on every value. */
  lemma ColorMapsAgree(t: Field)
    ensures ColorByType(t) == NetworkOverlay.ColorByType(t)
  {
  }

  /** The listed categories have pairwise distinct colours, none of them grey. */
  lemma CategoryColorsDistinct()
    ensures forall i, j :: 0 <= i < j < |Categories| ==>
      ColorByType(Some(Text(Categories[i]))) != ColorByType(Some(Text(Categories[j])))
    ensures forall i :: 0 <= i < |Categories| ==> ColorByType(Some(Text(Categories[i]))) != "#7C7C7C"
  {
  }

  const SwatchOpen := "<i style=\"background-color: "
  const SwatchClose := "; background-size: contain; display: inline-block;\"></i> "
  const Br := "<br>"

  /**
   * One legend label: a swatch in `color`, then the category's name. The
   * colour is looked up by the caller, as `legend.onAdd` does.
   */
  function Label(color: string, category: string): (r: string)
    ensures |r| == |SwatchOpen| + |color| + |SwatchClose| + |category|
    ensures r[|SwatchOpen|..|SwatchOpen| + |color|] == color
    ensures r[|r| - |category|..] == category
  {
    var r := SwatchOpen + color + SwatchClose + category;
    assert r[|SwatchOpen|..|SwatchOpen| + |color|] == color;
    assert r[|r| - |category|..] == category;
    r
  }

  /** The label of every type, each with its own colour, in the order of `types`. */
  function LabelsOf(types: seq<string>): (r: seq<string>)
    ensures |r| == |types|
    ensures forall i :: 0 <= i < |types| ==> r[i] == Label(ColorByType(Some(Text(types[i]))), types[i])
  {
    seq(|types|, i requires 0 <= i < |types| => Label(ColorByType(Some(Text(types[i]))), types[i]))
  }

  /** `Array.prototype.join`: the items with `sep` between neighbours. */
  function Join(items: seq<string>, sep: string): string {
    if |items| == 0 then ""
    else if |items| == 1 then items[0]
    else Join(items[..|items| - 1], sep) + sep + items[|items| - 1]
  }

  /** Where item `i` starts in the joined string. */
  function Offset(items: seq<string>, sep: string, i: nat): nat
    requires i <= |items|
  {
    if i == 0 then 0 else Offset(items, sep, i - 1) + |items[i - 1]| + |sep|
  }

  lemma {:induction false} OffsetPrefix(items: seq<string>, sep: string, m: nat, i: nat)
    requires i <= m <= |items|
    ensures Offset(items[..m], sep, i) == Offset(items, sep, i)
  {
    if i > 0 {
      OffsetPrefix(items, sep, m, i - 1);
    }
  }

  lemma {:induction false} JoinLength(items: seq<string>, sep: string)
    requires |items| > 0
    ensures |Join(items, sep)| + |sep| == Offset(items, sep, |items|)
  {
    var n := |items|;
    if n > 1 {
      JoinLength(items[..n - 1], sep);
      OffsetPrefix(items, sep, n - 1, n - 1);
    }
  }

  lemma SliceOfPrefix(x: string, y: string, lo: nat, hi: nat)
    requires lo <= hi <= |x|
    ensures (x + y)[lo..hi] == x[lo..hi]
  {
  }

  lemma SliceOfSuffix(x: string, y: string)
    ensures (x + y)[|x|..|x| + |y|] == y
  {
  }

  /** The joined string holds item `i` at its offset. */
  lemma {:induction false} JoinAt(items: seq<string>, sep: string, i: nat)
    requires i < |items|
    ensures Offset(items, sep, i) + |items[i]| <= |Join(items, sep)|
    ensures Join(items, sep)[Offset(items, sep, i)..Offset(items, sep, i) + |items[i]|] == items[i]
  {
    var n := |items|;
    var joined := Join(items, sep);
    var lo := Offset(items, sep, i);
    JoinLength(items, sep);
    if n == 1 {
      assert joined[lo..lo + |items[i]|] == items[i];
    } else {
      var front := items[..n - 1];
      var head := Join(front, sep);
      assert joined == (head + sep) + items[n - 1];
      JoinLength(front, sep);
      OffsetPrefix(items, sep, n - 1, n - 1);
      if i < n - 1 {
        JoinAt(front, sep, i);
        OffsetPrefix(items, sep, n - 1, i);
        assert front[i] == items[i];
        assert head[lo..lo + |items[i]|] == items[i];
        SliceOfPrefix(head + sep, items[n - 1], lo, lo + |items[i]|);
        SliceOfPrefix(head, sep, lo, lo + |items[i]|);
        assert joined[lo..lo + |items[i]|] == items[i];
      } else {
        assert lo == |head + sep|;
        SliceOfSuffix(head + sep, items[n - 1]);
        assert joined[lo..lo + |items[i]|] == items[i];
      }
    }
  }

  /** Between item `i` and item `i + 1` the joined string holds the separator. */
  lemma {:induction false} JoinSeparatorAt(items: seq<string>, sep: string, i: nat)
    requires i + 1 < |items|
    ensures Offset(items, sep, i + 1) <= |Join(items, sep)|
    ensures Join(items, sep)[Offset(items, sep, i) + |items[i]|..Offset(items, sep, i + 1)] == sep
  {
    var n := |items|;
    var joined := Join(items, sep);
    var lo := Offset(items, sep, i) + |items[i]|;
    var hi := Offset(items, sep, i + 1);
    assert hi == lo + |sep|;
    JoinAt(items, sep, i + 1);
    var front := items[..n - 1];
    var head := Join(front, sep);
    assert joined == (head + sep) + items[n - 1];
    JoinLength(front, sep);
    OffsetPrefix(items, sep, n - 1, n - 1);
    OffsetPrefix(items, sep, n - 1, i);
    OffsetPrefix(items, sep, n - 1, i + 1);
    assert front[i] == items[i];
    if i + 1 < n - 1 {
      JoinSeparatorAt(front, sep, i);
      assert head[lo..hi] == sep;
      SliceOfPrefix(head + sep, items[n - 1], lo, hi);
      SliceOfPrefix(head, sep, lo, hi);
      assert joined[lo..hi] == sep;
    } else {
      assert lo == |head|;
      SliceOfPrefix(head + sep, items[n - 1], lo, hi);
      SliceOfSuffix(head, sep);
      assert joined[lo..hi] == sep;
    }
  }

  /**
   * `legend.onAdd`: push one label per category, then join them with `<br>`.
   */
  method OnAdd() returns (html: string)
    ensures html == Join(LabelsOf(Categories), Br)
  {
    var types := Categories;
    var labels: seq<string> := [];
    for i := 0 to |types|
      invariant |labels| == i
      invariant forall k :: 0 <= k < i ==> labels[k] == Label(ColorByType(Some(Text(types[k]))), types[k])
    {
      var color := ColorByType(Some(Text(types[i])));
      labels := labels + [Label(color, types[i])];
    }
    assert labels == LabelsOf(types);
    html := Join(labels, Br);
  }
}
