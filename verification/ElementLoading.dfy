/** The element lanes that a tile type gets from its loaded sites (src/fpga/Tile.cpp). */
module ElementLoading {
  import opened ElementBits
  import opened ElementPacking

  const BELS: nat := 4

  /** What loading looks at in a site: whether it has logic outputs, its lanes, and some of its ports. */
  datatype Site = Site(hasLogic: bool, bels: set<nat>, hasAmux: bool, hasBmux: bool, hasCmux: bool, hasDmux: bool,
    hasCarry: bool) {
    predicate IsUsed() {
      hasLogic && bels != {}
    }

    predicate HasMux(lane: nat) {
      if lane == 0 then (0 in bels && 1 in bels) || hasAmux
      else lane == 2 && ((2 in bels && 3 in bels) || hasCmux)
    }

    predicate HasWideMux() {
      hasAmux || hasBmux || hasCmux || hasDmux
    }

    /** The elements that the site with this index contributes. */
    predicate Contributes(index: nat, e: Element) {
      IsUsed() && e.bitmapPos < ELEMENT_BITMAP_BITS &&
      match e.element
      case Lut5 => HasBel(index, e.bitmapPos)
      case Lut1 => HasBel(index, e.bitmapPos)
      case Fd => e.bitmapPos / 8 == index && e.bitmapPos % 8 % 4 in bels
      case Muxf7 => e.bitmapPos / 4 == index && HasMux(e.bitmapPos % 4)
      case Muxf8 => e.bitmapPos == index * 4 && HasWideMux()
      case Carry => e.bitmapPos == index * 4 && hasCarry
    }

    predicate HasBel(index: nat, bit: nat) {
      bit / 4 == index && bit % 4 in bels
    }
  }

  /** The elements that the first `n` sites contribute. */
  ghost predicate IsLoaded(sites: seq<Site>, n: nat, elements: seq<Element>) {
    forall e :: e in elements <==> exists i: nat :: i < n && i < |sites| && sites[i].Contributes(i, e)
  }

  method AddIf(elements: seq<Element>, condition: bool, t: ElementType, bit: nat) returns (more: seq<Element>)
    ensures forall e :: e in more <==> e in elements || (condition && bit < ELEMENT_BITMAP_BITS && e == Element(t, bit))
  {
    more := if condition && bit < ELEMENT_BITMAP_BITS then elements + [Element(t, bit)] else elements;
  }

  /** The tables and registers of the lanes of one site. */
  method AddBels(elements: seq<Element>, site: Site, index: nat) returns (more: seq<Element>)
    requires site.IsUsed()
    ensures forall e :: e in more <==> e in elements || (BelElement(e, site, index, BELS) && site.Contributes(index, e))
  {
    more := elements;
    for bel := 0 to BELS
      invariant forall e :: e in more <==>
                  e in elements || (BelElement(e, site, index, bel) && site.Contributes(index, e))
    {
      var bit := index * 4 + bel;
      if bel in site.bels && bit < ELEMENT_BITMAP_BITS {
        more := AddIf(more, true, Lut5, bit);
        more := AddIf(more, true, Lut1, bit);
        more := AddIf(more, true, Fd, index * 8 + bel);
        more := AddIf(more, true, Fd, index * 8 + 4 + bel);
      }
      BelStep(site, index, bel);
    }
  }

  /** A table or register at one of the first `bels` lanes. */
  predicate BelElement(e: Element, site: Site, index: nat, bels: nat) {
    match e.element
    case Lut5 => e.bitmapPos % 4 < bels
    case Lut1 => e.bitmapPos % 4 < bels
    case Fd => e.bitmapPos % 8 % 4 < bels
    case _ => false
  }

  lemma BelStep(site: Site, index: nat, bel: nat)
    requires site.IsUsed() && bel < BELS
    ensures forall e :: BelElement(e, site, index, bel + 1) && site.Contributes(index, e) <==>
              (BelElement(e, site, index, bel) && site.Contributes(index, e)) ||
              (bel in site.bels && index * 4 + bel < ELEMENT_BITMAP_BITS && e.bitmapPos < ELEMENT_BITMAP_BITS &&
               e in {Element(Lut5, index * 4 + bel), Element(Lut1, index * 4 + bel), Element(Fd, index * 8 + bel),
                 Element(Fd, index * 8 + 4 + bel)})
  {
    forall e: Element
      ensures e.bitmapPos / 4 == index && e.bitmapPos % 4 == bel <==> e.bitmapPos == index * 4 + bel
      ensures e.bitmapPos / 8 == index && e.bitmapPos % 8 % 4 == bel <==>
              e.bitmapPos == index * 8 + bel || e.bitmapPos == index * 8 + 4 + bel
    {
    }
  }

  method AddSite(elements: seq<Element>, site: Site, index: nat) returns (more: seq<Element>)
    requires site.IsUsed()
    ensures forall e :: e in more <==> e in elements || site.Contributes(index, e)
  {
    more := AddBels(elements, site, index);
    var a, c := index * 4, index * 4 + 2;
    more := AddIf(more, site.HasMux(0), Muxf7, a);
    more := AddIf(more, site.HasMux(2), Muxf7, c);
    more := AddIf(more, site.HasWideMux(), Muxf8, a);
    more := AddIf(more, site.hasCarry, Carry, a);
    forall e: Element
      ensures e.bitmapPos / 4 == index && (e.bitmapPos % 4 == 0 || e.bitmapPos % 4 == 2) <==>
                e.bitmapPos == a || e.bitmapPos == c
    {
    }
  }

  /** Loading lists exactly the elements of the sites with logic; sorting them afterwards changes no mask. */
  method RebuildElementsFromSites(sites: seq<Site>) returns (elements: seq<Element>)
    ensures IsLoaded(sites, |sites|, elements)
  {
    elements := [];
    for index := 0 to |sites|
      invariant IsLoaded(sites, index, elements)
    {
      if sites[index].IsUsed() {
        elements := AddSite(elements, sites[index], index);
      }
    }
  }

  /** A loaded tile type has canonical lanes only, so in its tiles the claims of residents stay disjoint. */
  lemma LoadedLanesAreCanonical(sites: seq<Site>, elements: seq<Element>)
    requires IsLoaded(sites, |sites|, elements)
    ensures forall s :: s in SlotsOf(elements) ==> 0 <= s.bit < ELEMENT_BITMAP_BITS && Canonical(s.element, s.bit)
  {
    forall e | e in elements
      ensures e.bitmapPos < ELEMENT_BITMAP_BITS && Canonical(e.element, e.bitmapPos)
    {
      var i: nat :| i < |sites| && sites[i].Contributes(i, e);
    }
  }
}
