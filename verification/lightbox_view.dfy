/** The full-screen image overlay: what it renders, which keys it listens to
    and how clicks inside it bubble up to the backdrop. */
module LightboxView {
  import opened Wrappers

  /** The callbacks the overlay can invoke. */
  datatype Command = Close | ShowNext | ShowPrev

  datatype Props = Props(isOpen: bool, imageSrc: string, hasNext: bool, hasPrev: bool)

  /** The `keydown` listener. It is only installed while the overlay is open;
      each of the three keys invokes its own callback. */
  function KeyDown(p: Props, key: string): (cmds: seq<Command>)
    ensures !p.isOpen ==> cmds == []
    ensures |cmds| <= 1
    ensures p.isOpen ==>
      cmds == (if key == "Escape" then [Close]
               else if key == "ArrowRight" then [ShowNext]
               else if key == "ArrowLeft" then [ShowPrev]
               else [])
    ensures p.isOpen ==> (cmds == [Close] <==> key == "Escape")
    ensures p.isOpen ==> (cmds == [ShowNext] <==> key == "ArrowRight")
    ensures p.isOpen ==> (cmds == [ShowPrev] <==> key == "ArrowLeft")
  {
    if !p.isOpen then []
    else
      (if key == "Escape" then [Close] else [])
      + (if key == "ArrowRight" then [ShowNext] else [])
      + (if key == "ArrowLeft" then [ShowPrev] else [])
  }

  /** What is on screen: nothing while closed, otherwise the image with the
      arrows the props ask for. */
  datatype View = View(imageSrc: string, showPrev: bool, showNext: bool)

  function Render(p: Props): (v: Option<View>)
    ensures v.None? <==> !p.isOpen
    ensures v.Some? ==> v.value.imageSrc == p.imageSrc
    ensures v.Some? ==> (v.value.showPrev <==> p.hasPrev) && (v.value.showNext <==> p.hasNext)
  {
    if !p.isOpen then None else Some(View(p.imageSrc, p.hasPrev, p.hasNext))
  }

  /** The clickable elements of the overlay. `Image` sits inside `Container`;
      everything else sits directly on the backdrop. */
  datatype Element = Backdrop | CloseButton | PrevArrow | NextArrow | Container | Image

  function Parent(e: Element): Option<Element> {
    match e
    case Backdrop => None
    case Image => Some(Container)
    case _ => Some(Backdrop)
  }

  function Depth(e: Element): nat {
    match e
    case Backdrop => 0
    case Image => 2
    case _ => 1
  }

  /** An element's own click handler: what it invokes and whether it calls
      `stopPropagation`. */
  datatype Handler = Handler(cmds: seq<Command>, stops: bool)

  function OwnHandler(e: Element): Handler {
    match e
    case Backdrop => Handler([Close], false)
    case CloseButton => Handler([Close], true)
    case PrevArrow => Handler([ShowPrev], true)
    case NextArrow => Handler([ShowNext], true)
    case Container => Handler([], true)
    case Image => Handler([], false)
  }

  /** A click on `e` runs its handler and, unless that handler stops the
      event, the handlers of its ancestors. */
  function Click(e: Element): (cmds: seq<Command>)
    ensures (cmds == [Close]) <==> (e == Backdrop || e == CloseButton)
    ensures cmds == [] <==> (e == Container || e == Image)
    ensures e == PrevArrow ==> cmds == [ShowPrev]
    ensures e == NextArrow ==> cmds == [ShowNext]
    decreases Depth(e)
  {
    var h := OwnHandler(e);
    match Parent(e)
    case None => h.cmds
    case Some(p) => if h.stops then h.cmds else h.cmds + Click(p)
  }
}
