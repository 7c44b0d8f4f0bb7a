/** A GUI element (GuiElement/gui_element.h and gui_element.cpp): the position, size and
    size policies a layout uses, and the link to the parent that lays it out.

    A width (height) is stored with a sign: a negative value under the FixedSize policy
    means that its magnitude was fixed with setFixedWidth (setFixedHeight). The hook
    recomputeLayout does nothing in the base class (gui_element.cpp:234-235);
    recomputeChildPosition has no body anywhere and is modelled as doing nothing. The ghost
    counters record how often each was called, so that the setters' "nothing happens
    when nothing changes" guards can be stated. */
module GuiElements {
  import opened GuiEvents

  datatype SizePolicy = FixedSize | PreferedSize | ExpandingSize

  /** The magnitude a layout reads from a sign-encoded width or height. */
  function Magnitude(v: int): (r: int)
    ensures r >= 0 && (r == v || r == -v)
  {
    if v < 0 then -v else v
  }

  /** A dimension is fixed when it is stored negative under the FixedSize policy. */
  predicate Fixed(v: int, policy: SizePolicy)
    ensures Fixed(v, policy) ==> policy == FixedSize && Magnitude(v) > 0
  {
    v < 0 && policy == FixedSize
  }

  /** The minimum (and the prefered) size the base class reports for a dimension. */
  function SizeHint(v: int, policy: SizePolicy): (r: int)
    ensures r >= 0
    ensures r > 0 <==> Fixed(v, policy)
    ensures Fixed(v, policy) ==> r == Magnitude(v)
  {
    if Fixed(v, policy) then Magnitude(v) else 0
  }

  /** What setFixedWidth(w) leaves in the field and the policy: `-w` under FixedSize,
      which is fixed, and reports w, exactly when w is positive. */
  lemma FixedByValue(w: int)
    ensures Fixed(-w, FixedSize) <==> w > 0
    ensures SizeHint(-w, FixedSize) == (if w > 0 then w else 0)
    ensures Magnitude(-w) == Magnitude(w)
  {
  }

  class GuiElement {
    var x: int
    var y: int
    var width: int
    var height: int
    var horizontalSizePolicy: SizePolicy
    var verticalSizePolicy: SizePolicy
    const parent: GuiElement?

    /** How often recomputeLayout and recomputeChildPosition ran on this element. */
    ghost var layoutCalls: nat
    ghost var childPosCalls: nat

    /** A new element: at (0, 0), of size 0 x 0, PreferedSize both ways, without parent. */
    constructor()
      ensures x == 0 && y == 0 && width == 0 && height == 0
      ensures horizontalSizePolicy == PreferedSize && verticalSizePolicy == PreferedSize
      ensures parent == null
      ensures layoutCalls == 0 && childPosCalls == 0
    {
      x, y, width, height := 0, 0, 0, 0;
      horizontalSizePolicy, verticalSizePolicy := PreferedSize, PreferedSize;
      parent := null;
      layoutCalls, childPosCalls := 0, 0;
    }

    /** A new element placed in a container, which becomes its parent. */
    constructor InContainer(container: GuiElement)
      ensures x == 0 && y == 0 && width == 0 && height == 0
      ensures horizontalSizePolicy == PreferedSize && verticalSizePolicy == PreferedSize
      ensures parent == container
      ensures layoutCalls == 0 && childPosCalls == 0
    {
      x, y, width, height := 0, 0, 0, 0;
      horizontalSizePolicy, verticalSizePolicy := PreferedSize, PreferedSize;
      parent := container;
      layoutCalls, childPosCalls := 0, 0;
    }

    /** The element whose layout a setter asks for: the parent, when there is one. */
    function Notified(): set<GuiElement>
    {
      if parent == null then {} else {parent}
    }

    /** The top coordinate, as setTopLeft stores it. */
    function GetTop(): (r: int)
      reads this
      ensures r == y
    {
      y
    }

    /** The left coordinate, as setTopLeft stores it. */
    function GetLeft(): (r: int)
      reads this
      ensures r == x
    {
      x
    }

    /** The width, never negative whatever the sign of the stored field. */
    function GetWidth(): (r: int)
      reads this
      ensures r >= 0
      ensures width >= 0 ==> r == width
      ensures width < 0 ==> r == -width
    {
      Magnitude(width)
    }

    /** The height, never negative whatever the sign of the stored field. */
    function GetHeight(): (r: int)
      reads this
      ensures r >= 0
      ensures height >= 0 ==> r == height
      ensures height < 0 ==> r == -height
    {
      Magnitude(height)
    }

    /** The stored horizontal policy. */
    function GetHorizontalSizePolicy(): (r: SizePolicy)
      reads this
      ensures r == horizontalSizePolicy
    {
      horizontalSizePolicy
    }

    /** The stored vertical policy. */
    function GetVerticalSizePolicy(): (r: SizePolicy)
      reads this
      ensures r == verticalSizePolicy
    {
      verticalSizePolicy
    }

    /** A width was fixed: then the policy is FixedSize and the width a layout reads is
        positive; a fixed width is exactly one the size hints report. */
    predicate HasFixedWidth()
      reads this
      ensures HasFixedWidth() ==> horizontalSizePolicy == FixedSize && GetWidth() > 0
      ensures HasFixedWidth() <==> SizeHint(width, horizontalSizePolicy) > 0
    {
      Fixed(width, horizontalSizePolicy)
    }

    /** A height was fixed: then the policy is FixedSize and the height a layout reads
        is positive; a fixed height is exactly one the size hints report. */
    predicate HasFixedHeight()
      reads this
      ensures HasFixedHeight() ==> verticalSizePolicy == FixedSize && GetHeight() > 0
      ensures HasFixedHeight() <==> SizeHint(height, verticalSizePolicy) > 0
    {
      Fixed(height, verticalSizePolicy)
    }

    /** 0 unless a width was fixed, the fixed width then. */
    function GetMinimumWidth(): (r: int)
      reads this
      ensures r == SizeHint(width, horizontalSizePolicy)
      ensures r > 0 <==> HasFixedWidth()
    {
      if HasFixedWidth() then GetWidth() else 0
    }

    /** 0 unless a height was fixed, the fixed height then. */
    function GetMinimumHeight(): (r: int)
      reads this
      ensures r == SizeHint(height, verticalSizePolicy)
      ensures r > 0 <==> HasFixedHeight()
    {
      if HasFixedHeight() then GetHeight() else 0
    }

    /** 0 unless a width was fixed, the fixed width then. */
    function GetPreferedWidth(): (r: int)
      reads this
      ensures r == SizeHint(width, horizontalSizePolicy)
      ensures r > 0 <==> HasFixedWidth()
    {
      if HasFixedWidth() then GetWidth() else 0
    }

    /** 0 unless a height was fixed, the fixed height then. */
    function GetPreferedHeight(): (r: int)
      reads this
      ensures r == SizeHint(height, verticalSizePolicy)
      ensures r > 0 <==> HasFixedHeight()
    {
      if HasFixedHeight() then GetHeight() else 0
    }

    /** Stores the raw values and lays the children out again, unless both are unchanged. */
    method SetSize(w: int, h: int)
      modifies this`width, this`height, this`layoutCalls
      ensures width == w && height == h
      ensures layoutCalls == old(layoutCalls) + (if old(width) == w && old(height) == h then 0 else 1)
    {
      if width == w && height == h {
        return;
      }
      width := w;
      height := h;
      RecomputeLayout();
    }

    /** Moves the element (top first) and places the children again, unless unchanged. */
    method SetTopLeft(top: int, left: int)
      modifies this`x, this`y, this`childPosCalls
      ensures GetTop() == top && GetLeft() == left
      ensures childPosCalls == old(childPosCalls) + (if old(y) == top && old(x) == left then 0 else 1)
    {
      if y == top && x == left {
        return;
      }
      y := top;
      x := left;
      RecomputeChildPosition();
    }

    /** As written: the policy is assigned only when it already equals the new one, so it
        never changes; the parent is asked to lay out again in every case. */
    method SetHorizontalSizePolicy(policy: SizePolicy)
      modifies this`horizontalSizePolicy, Notified()`layoutCalls
      ensures horizontalSizePolicy == old(horizontalSizePolicy)
      ensures parent != null ==> parent.layoutCalls == old(parent.layoutCalls) + 1
    {
      if policy == horizontalSizePolicy {
        horizontalSizePolicy := policy;
      }
      if parent != null {
        parent.RecomputeLayout();
      }
    }

    /** As written, like SetHorizontalSizePolicy: the vertical policy never changes. */
    method SetVerticalSizePolicy(policy: SizePolicy)
      modifies this`verticalSizePolicy, Notified()`layoutCalls
      ensures verticalSizePolicy == old(verticalSizePolicy)
      ensures parent != null ==> parent.layoutCalls == old(parent.layoutCalls) + 1
    {
      if policy == verticalSizePolicy {
        verticalSizePolicy := policy;
      }
      if parent != null {
        parent.RecomputeLayout();
      }
    }

    /** The setter as intended: like the other setters of the class, it does nothing when
        the policy is unchanged; otherwise it stores the new policy and asks the parent
        to lay out again. */
    method SetHorizontalSizePolicyIntended(policy: SizePolicy)
      modifies this`horizontalSizePolicy, Notified()`layoutCalls
      ensures horizontalSizePolicy == policy
      ensures parent != null ==>
                parent.layoutCalls == old(parent.layoutCalls) + (if old(horizontalSizePolicy) == policy then 0 else 1)
    {
      if policy == horizontalSizePolicy {
        return;
      }
      horizontalSizePolicy := policy;
      if parent != null {
        parent.RecomputeLayout();
      }
    }

    /** The vertical setter as intended, like SetHorizontalSizePolicyIntended. */
    method SetVerticalSizePolicyIntended(policy: SizePolicy)
      modifies this`verticalSizePolicy, Notified()`layoutCalls
      ensures verticalSizePolicy == policy
      ensures parent != null ==>
                parent.layoutCalls == old(parent.layoutCalls) + (if old(verticalSizePolicy) == policy then 0 else 1)
    {
      if policy == verticalSizePolicy {
        return;
      }
      verticalSizePolicy := policy;
      if parent != null {
        parent.RecomputeLayout();
      }
    }

    /** Stores `-w` under FixedSize; the width is then fixed, and reported by the size
        hints, exactly when w is positive. The parent is told unless nothing changed. */
    method SetFixedWidth(w: int)
      modifies this`width, this`horizontalSizePolicy, Notified()`layoutCalls
      ensures width == -w && horizontalSizePolicy == FixedSize
      ensures HasFixedWidth() <==> w > 0
      ensures GetMinimumWidth() == GetPreferedWidth() == (if w > 0 then w else 0)
      ensures w > 0 ==> GetWidth() == w
      ensures parent != null ==>
                parent.layoutCalls == old(parent.layoutCalls)
                  + (if old(width) == -w && old(horizontalSizePolicy) == FixedSize then 0 else 1)
    {
      if width == -w && horizontalSizePolicy == FixedSize {
        FixedByValue(w);
        return;
      }
      width := -w;
      horizontalSizePolicy := FixedSize;
      if parent != null {
        parent.RecomputeLayout();
      }
      FixedByValue(w);
    }

    /** Stores `-h` under FixedSize; the height is then fixed, and reported by the size
        hints, exactly when h is positive. The parent is told unless nothing changed. */
    method SetFixedHeight(h: int)
      modifies this`height, this`verticalSizePolicy, Notified()`layoutCalls
      ensures height == -h && verticalSizePolicy == FixedSize
      ensures HasFixedHeight() <==> h > 0
      ensures GetMinimumHeight() == GetPreferedHeight() == (if h > 0 then h else 0)
      ensures h > 0 ==> GetHeight() == h
      ensures parent != null ==>
                parent.layoutCalls == old(parent.layoutCalls)
                  + (if old(height) == -h && old(verticalSizePolicy) == FixedSize then 0 else 1)
    {
      if height == -h && verticalSizePolicy == FixedSize {
        FixedByValue(h);
        return;
      }
      height := -h;
      verticalSizePolicy := FixedSize;
      if parent != null {
        parent.RecomputeLayout();
      }
      FixedByValue(h);
    }

    /** The base class lays out no children; only the call is recorded. */
    method RecomputeLayout()
      modifies this`layoutCalls
      ensures layoutCalls == old(layoutCalls) + 1
    {
      layoutCalls := layoutCalls + 1;
    }

    /** The base class places no children; only the call is recorded. */
    method RecomputeChildPosition()
      modifies this`childPosCalls
      ensures childPosCalls == old(childPosCalls) + 1
    {
      childPosCalls := childPosCalls + 1;
    }

    /** The base class accepts no event and changes nothing. */
    method ProcessEvent(event: GuiEvent) returns (accepted: bool)
      ensures !accepted
    {
      accepted := false;
    }
  }

  /** As written, asking a new element for the FixedSize policy leaves it PreferedSize. */
  method PolicySetterKeepsPolicy() returns (before: SizePolicy, after: SizePolicy)
    ensures before == PreferedSize && after == PreferedSize
  {
    var e := new GuiElement();
    before := e.GetHorizontalSizePolicy();
    e.SetHorizontalSizePolicy(FixedSize);
    after := e.GetHorizontalSizePolicy();
  }

  /** The intended setter does store the FixedSize policy. */
  method IntendedPolicySetterStores() returns (before: SizePolicy, after: SizePolicy)
    ensures before == PreferedSize && after == FixedSize
  {
    var e := new GuiElement();
    before := e.GetHorizontalSizePolicy();
    e.SetHorizontalSizePolicyIntended(FixedSize);
    after := e.GetHorizontalSizePolicy();
  }

  /** setSize compares and stores the raw field: after setFixedWidth(5), setSize(5, h)
      is no no-op but unfixes the width, while the policy stays FixedSize. */
  method SetSizeUnfixesWidth(h: int) returns (fixedBefore: bool, fixedAfter: bool, policy: SizePolicy, width: int)
    ensures fixedBefore && !fixedAfter
    ensures policy == FixedSize && width == 5
  {
    var e := new GuiElement();
    e.SetFixedWidth(5);
    fixedBefore := e.HasFixedWidth();
    e.SetSize(5, h);
    fixedAfter := e.HasFixedWidth();
    policy := e.GetHorizontalSizePolicy();
    width := e.GetWidth();
  }
}
