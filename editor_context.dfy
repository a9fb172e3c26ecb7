/** The editor context of a map document: which tags and entity definitions the
    user has hidden, whether selection changes are blocked, and which group is
    open for editing; and, from that state, which nodes of the map are visible and
    which can be selected.

    Nodes are values: each carries the state the context consults (selected, its
    own visibility and editability, whether its containing group is open) and its
    kind-specific data. Tags are the bits of a tag mask, written as a set of bit
    numbers; a node "has" a mask when it carries one of its bits. The two display
    preferences the context reads are passed in as a Preferences value, and the
    change notifier is a counter of notifications. */
module EditorContextModel {
  import opened Wrappers

  datatype Preferences = Preferences(showPointEntities: bool, showBrushes: bool)

  /** The node state the context consults. */
  datatype NodeState = NodeState(selected: bool, shown: bool, editable: bool, containingGroupOpened: bool)

  datatype Face = Face(tags: set<nat>)

  /** The kinds of node, with what each kind adds. An entity's definition and the
      definition of a brush's entity are given by index, None when there is no
      entity or no definition. */
  datatype NodeKind =
    | World
    | Layer
    | Group(groupOpened: bool)
    | Entity(pointEntity: bool, definition: Option<nat>)
    | Brush(tags: set<nat>, faces: seq<Face>, entityDefinition: Option<nat>)
    | Patch(tags: set<nat>)

  datatype Node = Node(state: NodeState, kind: NodeKind, children: seq<Node>)

  /** A node or face carries one of the tags of `mask`. */
  predicate HasTag(tags: set<nat>, mask: set<nat>) {
    tags * mask != {}
  }

  /** Every face carries one of the tags of `mask`. */
  predicate AllFacesHaveAnyTagInMask(faces: seq<Face>, mask: set<nat>) {
    forall i :: 0 <= i < |faces| ==> HasTag(faces[i].tags, mask)
  }

  /** A group as the context sees it: its edit state and the group containing it. */
  class GroupNode {
    var isOpen: bool
    const containingGroup: GroupNode?

    constructor (containingGroup: GroupNode?)
      ensures this.containingGroup == containingGroup && !isOpen
    {
      this.containingGroup := containingGroup;
      isOpen := false;
    }
  }

  class EditorContext {
    var hiddenTags: set<nat>
    var hiddenEntityDefinitions: set<nat>
    var blockSelection: bool
    var currentGroup: GroupNode?
    /** How many times the context announced a change. */
    var notifications: nat

    /** The group being edited, if any, is open. */
    ghost predicate Valid()
      reads this, currentGroup
    {
      currentGroup != null ==> currentGroup.isOpen
    }

    constructor ()
      ensures Valid()
      ensures hiddenTags == {} && hiddenEntityDefinitions == {} && !blockSelection
      ensures currentGroup == null && notifications == 0
    {
      hiddenTags := {};
      hiddenEntityDefinitions := {};
      blockSelection := false;
      currentGroup := null;
      notifications := 0;
    }

    /** Shows every tag and every entity definition, unblocks selection and leaves
        every group, without announcing a change. */
    method Reset()
      modifies this
      ensures Valid()
      ensures hiddenTags == {} && hiddenEntityDefinitions == {} && !blockSelection
      ensures currentGroup == null && notifications == old(notifications)
      ensures CanChangeSelection() && forall d :: !EntityDefinitionHidden(Some(d))
    {
      hiddenTags := {};
      hiddenEntityDefinitions := {};
      blockSelection := false;
      currentGroup := null;
    }

    method SetHiddenTags(tags: set<nat>)
      modifies this
      ensures hiddenTags == tags
      ensures notifications == old(notifications) + if tags != old(hiddenTags) then 1 else 0
      ensures hiddenEntityDefinitions == old(hiddenEntityDefinitions)
      ensures blockSelection == old(blockSelection) && currentGroup == old(currentGroup)
      ensures old(Valid()) ==> Valid()
    {
      if tags != hiddenTags {
        hiddenTags := tags;
        notifications := notifications + 1;
      }
    }

    /** A definition is hidden when there is one and its flag is set. */
    predicate EntityDefinitionHidden(definition: Option<nat>)
      reads this
      ensures EntityDefinitionHidden(definition) ==> definition.Some?
    {
      definition.Some? && definition.value in hiddenEntityDefinitions
    }

    method SetEntityDefinitionHidden(definition: Option<nat>, hidden: bool)
      modifies this
      ensures definition.Some? ==> EntityDefinitionHidden(definition) == hidden
      ensures hiddenEntityDefinitions ==
        if definition.None? then old(hiddenEntityDefinitions)
        else if hidden then old(hiddenEntityDefinitions) + {definition.value}
        else old(hiddenEntityDefinitions) - {definition.value}
      ensures notifications == old(notifications) +
        if definition.Some? && old(EntityDefinitionHidden(definition)) != hidden then 1 else 0
      ensures hiddenTags == old(hiddenTags)
      ensures blockSelection == old(blockSelection) && currentGroup == old(currentGroup)
      ensures old(Valid()) ==> Valid()
    {
      if definition.Some? && EntityDefinitionHidden(definition) != hidden {
        if hidden {
          hiddenEntityDefinitions := hiddenEntityDefinitions + {definition.value};
        } else {
          hiddenEntityDefinitions := hiddenEntityDefinitions - {definition.value};
        }
        notifications := notifications + 1;
      }
    }

    method SetBlockSelection(block: bool)
      modifies this
      ensures blockSelection == block && CanChangeSelection() == !block
      ensures notifications == old(notifications) + if block != old(blockSelection) then 1 else 0
      ensures hiddenTags == old(hiddenTags) && hiddenEntityDefinitions == old(hiddenEntityDefinitions)
      ensures currentGroup == old(currentGroup)
      ensures old(Valid()) ==> Valid()
    {
      if blockSelection != block {
        blockSelection := block;
        notifications := notifications + 1;
      }
    }

    /** Opens a group contained in the current one (or any group when none is
        current) for editing, closing the current one. */
    method PushGroup(group: GroupNode)
      requires currentGroup == null || group.containingGroup == currentGroup
      modifies this, currentGroup, group
      ensures Valid() && currentGroup == group && group.isOpen
      ensures old(currentGroup) != null && old(currentGroup) != group ==> !old(currentGroup).isOpen
      ensures hiddenTags == old(hiddenTags) && hiddenEntityDefinitions == old(hiddenEntityDefinitions)
      ensures blockSelection == old(blockSelection) && notifications == old(notifications)
    {
      if currentGroup != null {
        currentGroup.isOpen := false;
      }
      currentGroup := group;
      currentGroup.isOpen := true;
    }

    /** Closes the current group and returns to the group containing it, opening
        that one if there is one. */
    method PopGroup()
      requires currentGroup != null
      modifies this, currentGroup, currentGroup.containingGroup
      ensures Valid() && currentGroup == old(currentGroup.containingGroup)
      ensures old(currentGroup) != currentGroup ==> !old(currentGroup).isOpen
      ensures hiddenTags == old(hiddenTags) && hiddenEntityDefinitions == old(hiddenEntityDefinitions)
      ensures blockSelection == old(blockSelection) && notifications == old(notifications)
    {
      currentGroup.isOpen := false;
      currentGroup := currentGroup.containingGroup;
      if currentGroup != null {
        currentGroup.isOpen := true;
      }
    }

    // ----- Visibility -----

    predicate Visible(prefs: Preferences, node: Node)
      reads this
      decreases node, 1
    {
      match node.kind
      case World => node.state.shown
      case Layer => node.state.shown
      case Group(_) =>
        if node.state.selected then true
        else if !AnyChildVisible(prefs, node.children) then false
        else node.state.shown
      case Entity(pointEntity, definition) =>
        if node.state.selected then true
        else if !pointEntity then AnyChildVisible(prefs, node.children)
        else if !node.state.shown then false
        else if !prefs.showPointEntities then false
        else if EntityDefinitionHidden(definition) then false
        else true
      case Brush(tags, faces, entityDefinition) =>
        if node.state.selected then true
        else if !prefs.showBrushes then false
        else if HasTag(tags, hiddenTags) then false
        else if AllFacesHaveAnyTagInMask(faces, hiddenTags) then false
        else if EntityDefinitionHidden(entityDefinition) then false
        else node.state.shown
      case Patch(tags) =>
        if node.state.selected then true
        else if HasTag(tags, hiddenTags) then false
        else node.state.shown
    }

    /** Some child is visible. */
    predicate AnyChildVisible(prefs: Preferences, children: seq<Node>)
      reads this
      decreases children, 0
    {
      children != [] && (Visible(prefs, children[0]) || AnyChildVisible(prefs, children[1..]))
    }

    /** A face of a brush is visible when the brush is and the face carries none
        of the hidden tags. */
    predicate FaceVisible(prefs: Preferences, brush: Node, face: Face)
      reads this
    {
      Visible(prefs, brush) && !HasTag(face.tags, hiddenTags)
    }

    // ----- Editing and selection -----

    predicate Editable(node: Node) {
      node.state.editable
    }

    predicate InOpenGroup(node: Node) {
      node.state.containingGroupOpened
    }

    predicate Selectable(prefs: Preferences, node: Node)
      reads this
    {
      match node.kind
      case World => false
      case Layer => false
      case Group(groupOpened) =>
        Visible(prefs, node) && Editable(node) && !groupOpened && InOpenGroup(node)
      case Entity(_, _) =>
        Visible(prefs, node) && Editable(node) && node.children == [] && InOpenGroup(node)
      case Brush(_, _, _) => Visible(prefs, node) && Editable(node) && InOpenGroup(node)
      case Patch(_) => Visible(prefs, node) && Editable(node) && InOpenGroup(node)
    }

    /** A face is selectable when it is visible and its brush is editable. */
    predicate FaceSelectable(prefs: Preferences, brush: Node, face: Face)
      reads this
    {
      FaceVisible(prefs, brush, face) && Editable(brush)
    }

    predicate CanChangeSelection()
      reads this
    {
      !blockSelection
    }
  }

  // ----- Properties -----

  /** Some child is visible exactly when one of them is. */
  lemma {:induction false} AnyChildVisibleExists(ctx: EditorContext, prefs: Preferences, children: seq<Node>)
    ensures ctx.AnyChildVisible(prefs, children) <==>
      exists i :: 0 <= i < |children| && ctx.Visible(prefs, children[i])
    decreases |children|
  {
    if children != [] {
      AnyChildVisibleExists(ctx, prefs, children[1..]);
      if exists i :: 0 <= i < |children| && ctx.Visible(prefs, children[i]) {
        var i :| 0 <= i < |children| && ctx.Visible(prefs, children[i]);
        if i > 0 {
          assert children[1..][i - 1] == children[i];
        }
      }
      if exists i :: 0 <= i < |children[1..]| && ctx.Visible(prefs, children[1..][i]) {
        var i :| 0 <= i < |children[1..]| && ctx.Visible(prefs, children[1..][i]);
        assert children[i + 1] == children[1..][i];
      }
    }
  }

  /** What can be selected can be seen and edited, lies in an open group, and is
      neither the world nor a layer. */
  lemma SelectableIsVisible(ctx: EditorContext, prefs: Preferences, node: Node)
    requires ctx.Selectable(prefs, node)
    ensures ctx.Visible(prefs, node) && ctx.Editable(node) && ctx.InOpenGroup(node)
    ensures !node.kind.World? && !node.kind.Layer?
    ensures node.kind.Group? ==> !node.kind.groupOpened
    ensures node.kind.Entity? ==> node.children == []
  {
  }

  /** A selected group, entity, brush or patch is always visible. */
  lemma SelectedIsVisible(ctx: EditorContext, prefs: Preferences, node: Node)
    requires node.state.selected && !node.kind.World? && !node.kind.Layer?
    ensures ctx.Visible(prefs, node)
  {
  }

  /** An unselected group or brush entity is visible only when one of its children is. */
  lemma VisibleNeedsVisibleChild(ctx: EditorContext, prefs: Preferences, node: Node)
    requires !node.state.selected && ctx.Visible(prefs, node)
    requires node.kind.Group? || (node.kind.Entity? && !node.kind.pointEntity)
    ensures exists i :: 0 <= i < |node.children| && ctx.Visible(prefs, node.children[i])
  {
    AnyChildVisibleExists(ctx, prefs, node.children);
  }

  /** An unselected brush or patch that carries a hidden tag is not visible. */
  lemma HiddenTagHides(ctx: EditorContext, prefs: Preferences, node: Node)
    requires !node.state.selected && (node.kind.Brush? || node.kind.Patch?)
    requires HasTag(node.kind.tags, ctx.hiddenTags)
    ensures !ctx.Visible(prefs, node)
  {
  }

  /** A face that can be selected is visible, and so is its brush. */
  lemma FaceSelectableIsVisible(ctx: EditorContext, prefs: Preferences, brush: Node, face: Face)
    requires ctx.FaceSelectable(prefs, brush, face)
    ensures ctx.FaceVisible(prefs, brush, face) && ctx.Visible(prefs, brush) && ctx.Editable(brush)
    ensures !HasTag(face.tags, ctx.hiddenTags)
  {
  }

  /** One context hides at least what another does. */
  predicate HidesMore(more: EditorContext, less: EditorContext)
    reads more, less
  {
    less.hiddenTags <= more.hiddenTags && less.hiddenEntityDefinitions <= more.hiddenEntityDefinitions
  }

  /** Hiding more tags or definitions never makes a node visible. */
  lemma {:induction false} HidingMoreHidesMore(more: EditorContext, less: EditorContext, prefs: Preferences, node: Node)
    requires HidesMore(more, less)
    ensures more.Visible(prefs, node) ==> less.Visible(prefs, node)
    decreases node, 1
  {
    match node.kind
    case Group(_) => ChildrenHidingMore(more, less, prefs, node.children);
    case Entity(_, _) => ChildrenHidingMore(more, less, prefs, node.children);
    case Brush(tags, faces, _) =>
      if AllFacesHaveAnyTagInMask(faces, less.hiddenTags) {
        forall i | 0 <= i < |faces| ensures HasTag(faces[i].tags, more.hiddenTags) {
          assert HasTag(faces[i].tags, less.hiddenTags);
        }
      }
    case _ =>
  }

  lemma {:induction false} ChildrenHidingMore(more: EditorContext, less: EditorContext, prefs: Preferences, children: seq<Node>)
    requires HidesMore(more, less)
    ensures more.AnyChildVisible(prefs, children) ==> less.AnyChildVisible(prefs, children)
    decreases children, 0
  {
    if children != [] {
      HidingMoreHidesMore(more, less, prefs, children[0]);
      ChildrenHidingMore(more, less, prefs, children[1..]);
    }
  }

  /** Hiding more tags or definitions never makes a node selectable. */
  lemma HidingMoreSelectsLess(more: EditorContext, less: EditorContext, prefs: Preferences, node: Node)
    requires HidesMore(more, less)
    ensures more.Selectable(prefs, node) ==> less.Selectable(prefs, node)
  {
    HidingMoreHidesMore(more, less, prefs, node);
  }

  /** Hiding more tags never makes a face visible. */
  lemma HidingMoreHidesFaces(more: EditorContext, less: EditorContext, prefs: Preferences, brush: Node, face: Face)
    requires HidesMore(more, less)
    ensures more.FaceVisible(prefs, brush, face) ==> less.FaceVisible(prefs, brush, face)
  {
    HidingMoreHidesMore(more, less, prefs, brush);
  }
}
