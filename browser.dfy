/**
 * The slice of the browser that the download code touches: anchor elements,
 * the child list of `document.body`, object URLs and what a click on an
 * anchor asks the browser to save.
 */
module Browser {
  import opened Wrappers

  /** The bytes of a `Blob`. */
  type Blob = seq<bv8>

  /** An anchor's `href`: unset, an ordinary address, or an object URL handle. */
  datatype Href = NoHref | Address(url: string) | ObjectUrl(handle: nat)

  /**
   * One `link.click()`: the anchor's attributes at that moment and, for a
   * live object URL, the blob it designated.
   */
  datatype Click = Click(href: Href, download: string, target: string, content: Option<Blob>)

  /** An element made by `document.createElement('a')`. */
  class Anchor {
    var href: Href
    var download: string
    var target: string

    constructor ()
      ensures href == NoHref && download == "" && target == ""
    {
      href := NoHref;
      download := "";
      target := "";
    }
  }

  /** What an object URL designates among the live ones. */
  function Resolve(href: Href, live: map<nat, Blob>): (content: Option<Blob>)
    ensures content.Some? <==> href.ObjectUrl? && href.handle in live
    ensures content.Some? ==> content.value == live[href.handle]
  {
    if href.ObjectUrl? && href.handle in live then Some(live[href.handle]) else None
  }

  /**
   * `parent.removeChild(child)` on a child list: the first occurrence of
   * `child` goes and the other children keep their order.
   */
  function RemoveChild<T(==)>(children: seq<T>, child: T): (r: seq<T>)
    ensures child !in children ==> r == children
    ensures forall i :: 0 <= i < |children| && children[i] == child && child !in children[..i] ==>
              r == children[..i] + children[i + 1..]
  {
    if children == [] then []
    else if children[0] == child then children[1..]
    else
      assert forall i :: 0 < i < |children| ==> children[..i] == [children[0]] + children[1..][..i - 1];
      [children[0]] + RemoveChild(children[1..], child)
  }

  /** Appending a new child and then removing it restores the child list. */
  lemma RemoveAppendedChild<T>(children: seq<T>, child: T)
    requires child !in children
    ensures RemoveChild(children + [child], child) == children
  {
    var all := children + [child];
    assert all[|children|] == child && all[..|children|] == children;
  }
}
