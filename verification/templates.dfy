/** The static table of task templates the picker offers, and Python's list subscript on it. */
module Templates {
  import opened Outcomes

  /** One task: its display name, an icon glyph and its ordered steps. */
  datatype Template = Template(name: string, icon: string, steps: seq<string>)

  /** A template the step page can show: it has at least one step. */
  predicate WellFormed(t: Template) {
    |t.steps| >= 1
  }

  /** The built-in templates, in the order the picker lists them. */
  function All(): (ts: seq<Template>)
    ensures |ts| == 4
    ensures forall i :: 0 <= i < |ts| ==> WellFormed(ts[i])
    ensures |ts[0].steps| == 6 && |ts[1].steps| == 5 && |ts[2].steps| == 5 && |ts[3].steps| == 6
  {
    [ Template("Brush Teeth", "🪥",
               ["Get toothbrush", "Add toothpaste", "Brush top teeth", "Brush bottom teeth",
                "Spit and rinse", "Done!"]),
      Template("Get Dressed", "👕",
               ["Underwear", "Socks", "Pants", "Shirt", "Check in mirror"]),
      Template("Pack School Bag", "🎒",
               ["Books", "Pencil case", "Lunch box", "Water bottle", "Close bag"]),
      Template("Bedtime", "🌙",
               ["Put on pajamas", "Brush teeth", "Go to bathroom", "Get into bed",
                "Read a story", "Lights off"]) ]
  }

  /** Python's `xs[i]` on a list of length `n`: a negative index counts from the end,
      and any index outside `[-n, n)` raises `IndexError` (reported as `None`). */
  function PyIndex(n: nat, i: int): (r: Option<nat>)
    ensures r.Some? <==> -(n as int) <= i < n
    ensures r.Some? ==> r.value < n && (r.value == i || r.value == i + n)
  {
    if 0 <= i < n then Some(i)
    else if -(n as int) <= i < 0 then Some(n + i)
    else None
  }

  /** `TEMPLATES[index]`: the template at `index`, or the `IndexError` Python raises. */
  function Lookup(index: int): (r: Result<Template>)
    ensures r.Ok? <==> -|All()| <= index < |All()|
    ensures r.Ok? ==> r.value == All()[index % |All()|] && WellFormed(r.value)
    ensures r.Err? ==> r.error == IndexError
  {
    match PyIndex(|All()|, index)
    case Some(j) => Ok(All()[j])
    case None => Err(IndexError)
  }
}
