/**
 * The treemap of components/argument-visualization.tsx: box colours by
 * strength, box sizes by impact, the tooltip's labels, the defaults for
 * missing input lists, the groups shown on each tab, and when a box shows
 * its label.  Strengths and box dimensions are JavaScript numbers,
 * modelled as reals.  An impact is the string the analysis service sent:
 * the type names three values, but nothing checks it at run time.
 */
module Visualization {
  import opened Wrappers

  const Coral: string := "rgb(255, 127, 123)"
  const Amber: string := "rgb(250, 176, 5)"
  const Sage: string := "rgb(104, 159, 56)"

  /** `getStrengthColor` (lines 51-62). */
  function StrengthColor(strength: real): string {
    if strength <= 30.0 then Coral
    else if strength <= 70.0 then Amber
    else Sage
  }

  /** The strength line of the tooltip (lines 76-77). */
  function StrengthText(strength: real): string {
    if strength <= 30.0 then "Needs Work" else if strength <= 70.0 then "Pretty Good" else "Very Strong"
  }

  /** The bands: up to 30 coral, above 30 up to 70 amber, above 70 green, each upper bound included. */
  lemma StrengthBands(strength: real)
    ensures StrengthColor(strength) == Coral <==> strength <= 30.0
    ensures StrengthColor(strength) == Amber <==> 30.0 < strength <= 70.0
    ensures StrengthColor(strength) == Sage <==> strength > 70.0
  {
  }

  /** The tooltip names the band the box is coloured by. */
  lemma TooltipAgreesWithColor(strength: real)
    ensures StrengthText(strength) == "Needs Work" <==> StrengthColor(strength) == Coral
    ensures StrengthText(strength) == "Pretty Good" <==> StrengthColor(strength) == Amber
    ensures StrengthText(strength) == "Very Strong" <==> StrengthColor(strength) == Sage
  {
  }

  /** `getImpactSize` (lines 64-71). */
  function ImpactSize(impact: string): int {
    match impact
    case "critical" => 200
    case "important" => 150
    case "minor" => 100
    case _ => 150
  }

  /** The impact line of the tooltip (lines 78-79). */
  function ImpactText(impact: string): string {
    if impact == "critical" then "Super Important" else if impact == "important" then "Important" else "Helpful"
  }

  /** Sizes fall strictly with impact, and an unknown impact is sized as "important". */
  lemma ImpactSizes(impact: string)
    ensures ImpactSize("critical") > ImpactSize("important") > ImpactSize("minor") > 0
    ensures impact !in {"critical", "important", "minor"} ==> ImpactSize(impact) == ImpactSize("important")
  {
  }

  /** An unknown impact is sized like "important" but labelled like "minor". */
  lemma UnknownImpact(impact: string)
    requires impact !in {"critical", "important", "minor"}
    ensures ImpactSize(impact) == ImpactSize("important") && ImpactText(impact) == ImpactText("minor")
  {
  }

  // ---------------------------------------------------------------------
  // The tree

  datatype NodeType = Premise | Conclusion | Support | Counter | Weakness

  /** One entry of an input list. */
  datatype Item = Item(text: string, strength: real, impact: string)

  /** A box of the treemap. */
  datatype Leaf = Leaf(name: string, size: int, strength: real, nodeType: NodeType, impact: string)

  /** A group of boxes; the groups have size and strength 0. */
  datatype Group = Group(name: string, size: int, strength: real, nodeType: NodeType, impact: string, children: seq<Leaf>)

  /** The input as received: any list may be missing. */
  datatype RawData = RawData(premises: Option<seq<Item>>, conclusions: Option<seq<Item>>, supporting: Option<seq<Item>>,
                             counters: Option<seq<Item>>, weaknesses: Option<seq<Item>>)

  datatype Data = Data(premises: seq<Item>, conclusions: seq<Item>, supporting: seq<Item>,
                       counters: seq<Item>, weaknesses: seq<Item>)

  function OrEmpty(xs: Option<seq<Item>>): (r: seq<Item>)
    ensures xs.Some? ==> r == xs.value
    ensures xs.None? ==> r == []
  {
    match xs
    case Some(v) => v
    case None => []
  }

  /** `safeData` (lines 204-210): each missing list becomes the empty list. */
  function SafeData(data: RawData): (r: Data)
    ensures r.premises == OrEmpty(data.premises) && r.conclusions == OrEmpty(data.conclusions)
    ensures r.supporting == OrEmpty(data.supporting) && r.counters == OrEmpty(data.counters)
    ensures r.weaknesses == OrEmpty(data.weaknesses)
  {
    Data(OrEmpty(data.premises), OrEmpty(data.conclusions), OrEmpty(data.supporting),
         OrEmpty(data.counters), OrEmpty(data.weaknesses))
  }

  /** The box drawn for one item of a list tagged `t`. */
  function ToLeaf(item: Item, t: NodeType): Leaf {
    Leaf(item.text, ImpactSize(item.impact), item.strength, t, item.impact)
  }

  /** `items.map(...)` for a list tagged `t`. */
  function Leaves(items: seq<Item>, t: NodeType): (r: seq<Leaf>)
    ensures |r| == |items|
    ensures forall i :: 0 <= i < |items| ==> r[i] == ToLeaf(items[i], t)
  {
    if items == [] then [] else Leaves(items[..|items| - 1], t) + [ToLeaf(items[|items| - 1], t)]
  }

  datatype Tab = Core | CounterTab | Feedback

  /** `getTabData` (lines 213-289). */
  function TabData(tab: Tab, d: Data): seq<Group> {
    match tab
    case Core => [
      Group("Main Ideas", 0, 0.0, Premise, "critical", Leaves(d.premises, Premise) + Leaves(d.conclusions, Conclusion)),
      Group("Supporting Ideas", 0, 0.0, Support, "important", Leaves(d.supporting, Support))
    ]
    case CounterTab => [
      Group("Opposing Ideas", 0, 0.0, Counter, "important", Leaves(d.counters, Counter)),
      Group("Areas to Improve", 0, 0.0, Weakness, "important", Leaves(d.weaknesses, Weakness))
    ]
    case Feedback => []
  }

  /**
   * The core tab: two groups, the main ideas being the premises and then the
   * conclusions in their order, the supporting ideas the supporting items.
   */
  lemma CoreTab(d: Data)
    ensures var gs := TabData(Core, d);
      |gs| == 2 && gs[0].name == "Main Ideas" && gs[1].name == "Supporting Ideas" &&
      |gs[0].children| == |d.premises| + |d.conclusions| &&
      (forall i :: 0 <= i < |d.premises| ==> gs[0].children[i] == ToLeaf(d.premises[i], Premise)) &&
      (forall i :: 0 <= i < |d.conclusions| ==> gs[0].children[|d.premises| + i] == ToLeaf(d.conclusions[i], Conclusion)) &&
      gs[1].children == Leaves(d.supporting, Support)
  {
  }

  /** The counter tab: the opposing ideas from the counters, the areas to improve from the weaknesses; the feedback tab is empty. */
  lemma CounterAndFeedbackTabs(d: Data)
    ensures var gs := TabData(CounterTab, d);
      |gs| == 2 && gs[0].name == "Opposing Ideas" && gs[1].name == "Areas to Improve" &&
      gs[0].children == Leaves(d.counters, Counter) && gs[1].children == Leaves(d.weaknesses, Weakness)
    ensures TabData(Feedback, d) == []
  {
  }

  /** Every box takes its name from the item's text, its size from the impact, and keeps the strength, the impact and its list's tag. */
  lemma LeavesFaithful(items: seq<Item>, t: NodeType, i: int)
    requires 0 <= i < |items|
    ensures var l := Leaves(items, t)[i];
      l.name == items[i].text && l.size == ImpactSize(items[i].impact) &&
      l.strength == items[i].strength && l.nodeType == t && l.impact == items[i].impact
  {
  }

  /** Every box of every tab carries its group's tag, except the conclusions, which sit among the main ideas. */
  lemma TabTypes(tab: Tab, d: Data)
    ensures forall g :: g in TabData(tab, d) ==> forall l :: l in g.children ==> l.nodeType == g.nodeType || (g.nodeType == Premise && l.nodeType == Conclusion)
  {
  }

  // ---------------------------------------------------------------------
  // Labels

  /** Line 156: a box shows its label only when it is wide and tall enough. */
  predicate ShowsLabel(width: real, height: real) {
    width > 50.0 && height > 30.0
  }

  /** Line 164: the label is dark on strong boxes, white otherwise. */
  function LabelFill(strength: real): string {
    if strength > 50.0 then "#1a1a1a" else "#fff"
  }

  /** The label is dark exactly above strength 50: always on green boxes, never on coral ones. */
  lemma LabelContrast(strength: real)
    ensures LabelFill(strength) == "#1a1a1a" <==> strength > 50.0
    ensures StrengthColor(strength) == Sage ==> LabelFill(strength) == "#1a1a1a"
    ensures StrengthColor(strength) == Coral ==> LabelFill(strength) == "#fff"
  {
  }
}
