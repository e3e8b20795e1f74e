/**
 * Which chat surface the page shows for each `chatState`: `ChatWidget`
 * (`components/ChatWidget/ChatWidget.tsx`) renders the floating button or the
 * mini chat, and the global chat of `lib/registry.tsx` mounts the full chat
 * modal next to it when expanded.
 */
module ChatWidget {
  import opened ChatContext

  datatype Surface = FloatingButton | MiniChat | ChatModal

  /** What `ChatWidget` renders: nothing when expanded, the button when closed, the mini chat when minimised. */
  function WidgetSurfaces(state: ChatState): (shown: set<Surface>)
    ensures ChatModal !in shown
    ensures FloatingButton in shown <==> state == Closed
    ensures MiniChat in shown <==> state == Minimized
  {
    match state
    case Expanded => {}
    case Closed => {FloatingButton}
    case Minimized => {MiniChat}
  }

  /** Everything the global chat mounts: the widget, plus the modal when expanded. */
  function PageSurfaces(state: ChatState): (shown: set<Surface>)
    ensures ChatModal in shown <==> state == Expanded
  {
    WidgetSurfaces(state) + (if state == Expanded then {ChatModal} else {})
  }

  /** In every state exactly one chat surface is on the page, and each state has its own. */
  lemma ExactlyOneSurface(state: ChatState)
    ensures |PageSurfaces(state)| == 1
    ensures state == Closed ==> PageSurfaces(state) == {FloatingButton}
    ensures state == Minimized ==> PageSurfaces(state) == {MiniChat}
    ensures state == Expanded ==> PageSurfaces(state) == {ChatModal}
  {
  }

  /** Distinct states show distinct surfaces, so the surface on screen determines the state. */
  lemma SurfacesDetermineState(s: ChatState, t: ChatState)
    requires PageSurfaces(s) == PageSurfaces(t)
    ensures s == t
  {
    ExactlyOneSurface(s);
    ExactlyOneSurface(t);
  }

  /** The floating button's click handler is `openChat`: it replaces the button by the mini chat and keeps the rest. */
  lemma FloatingButtonOpensMiniChat(c: Context)
    requires FloatingButton in PageSurfaces(c.chatState)
    ensures PageSurfaces(OpenChat(c).chatState) == {MiniChat}
    ensures SameButState(c, OpenChat(c))
  {
    ExactlyOneSurface(OpenChat(c).chatState);
  }
}
