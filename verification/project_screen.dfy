/**
 * The project screen's state and the handlers that replace it: collaborator
 * selection, open files, the editor's file tree, the chat input and message
 * list, received messages, and the add-collaborators request. Requests the
 * screen sends are recorded in order instead of being performed.
 */
module ProjectScreen {
  import opened Wrappers
  import Text
  import Collections
  import opened Protocol
  import opened ProjectModel

  /** `handleUserClick(id)`: the id leaves the selection if it was in it and joins it otherwise. */
  function Toggle(selected: set<UserId>, id: UserId): (r: set<UserId>)
    ensures id in r <==> id !in selected
    ensures forall other :: other != id ==> (other in r <==> other in selected)
  {
    if id in selected then selected - {id} else selected + {id}
  }

  /** Clicking the same user twice restores the selection. */
  lemma ToggleTwice(selected: set<UserId>, id: UserId)
    ensures Toggle(Toggle(selected, id), id) == selected
  {
  }

  /** `[...new Set([...openFiles, file])]`: the file is appended unless it is already open; order is kept. */
  function OpenFile(openFiles: seq<string>, file: string): (r: seq<string>)
    ensures Collections.NoDup(r) && file in r
  {
    assert (openFiles + [file])[|openFiles|] == file;
    Collections.Dedup(openFiles + [file])
  }

  /** With no file open twice, opening a file appends it exactly when it is not open yet. */
  lemma OpenFileAppendsOnce(openFiles: seq<string>, file: string)
    requires Collections.NoDup(openFiles)
    ensures OpenFile(openFiles, file) == if file in openFiles then openFiles else openFiles + [file]
  {
    Collections.DedupSnoc(openFiles, file);
    Collections.DedupOfNoDup(openFiles);
  }

  /** `{ ...fileTree, [name]: { file: { contents } } }`. */
  function WithContents(tree: FileTree, name: string, contents: string): (r: FileTree)
    ensures r.Keys == tree.Keys + {name}
    ensures r[name] == File(contents)
    ensures forall other :: other in tree && other != name ==> r[other] == tree[other]
  {
    tree[name := File(contents)]
  }

  /** Editing a file twice keeps only the last contents. */
  lemma LastEditWins(tree: FileTree, name: string, first: string, second: string)
    ensures WithContents(WithContents(tree, name, first), name, second) == WithContents(tree, name, second)
  {
  }

  /** The highlighter language: `javascript` for `.js` and `.jsx` files, `plaintext` otherwise. */
  function HighlightLanguage(name: string): (lang: string)
    ensures lang == "javascript" <==> Text.EndsWith(name, ".js") || Text.EndsWith(name, ".jsx")
    ensures lang != "javascript" ==> lang == "plaintext"
  {
    if Text.EndsWith(name, ".js") || Text.EndsWith(name, ".jsx") then "javascript" else "plaintext"
  }

  /** Any name with the `.jsx` extension is highlighted as JavaScript; a `.json` name is not. */
  lemma HighlightByExtension(base: string)
    ensures HighlightLanguage(base + ".js") == "javascript"
    ensures HighlightLanguage(base + ".jsx") == "javascript"
    ensures HighlightLanguage(base + ".json") == "plaintext"
  {
    var js, jsx, json := base + ".js", base + ".jsx", base + ".json";
    assert js[|js| - 3..] == ".js";
    assert jsx[|jsx| - 4..] == ".jsx";
    assert json[|json| - 3..] == "son" && json[|json| - 4..] == "json";
  }

  /** `message.sender?._id`. */
  function SenderId(m: ChatMessage): Option<string> {
    if m.sender.Some? then Some(m.sender.value.id) else None
  }

  /** A message renders as an assistant message when its sender id is `savana`. */
  predicate IsAi(m: ChatMessage): (b: bool)
    ensures b <==> m.sender.Some? && m.sender.value.id == AssistantId
  {
    SenderId(m) == Some(AssistantId)
  }

  /** `msg.sender?._id === user?._id`: both `undefined` also compare equal. */
  predicate IsOutgoing(m: ChatMessage, user: Option<Identity>): (b: bool)
    ensures b <==> (m.sender.None? && user.None?) || (m.sender.Some? && user.Some? && m.sender.value.id == user.value.id)
  {
    SenderId(m) == if user.Some? then Some(user.value.id) else None
  }

  /** The message `send` builds from the input. */
  function Outgoing(input: string, user: Option<Identity>): (m: ChatMessage)
    ensures m.newmessage == Some(input) && m.sender == user
  {
    ChatMessage(Some(input), user)
  }

  /** A message the user sent is shown as outgoing; so is a sender-less message while no user is loaded. */
  lemma OutgoingClassification(input: string, user: Option<Identity>)
    ensures IsOutgoing(Outgoing(input, user), user)
    ensures user.None? ==> IsOutgoing(ChatMessage(Some(input), None), user)
  {
  }

  /** An assistant reply renders as an assistant message, and counts as outgoing only for a user whose id is `savana`. */
  lemma AssistantClassification(result: string, user: Option<Identity>)
    ensures IsAi(AssistantReply(result))
    ensures IsOutgoing(AssistantReply(result), user) <==> user.Some? && user.value.id == AssistantId
  {
  }

  /** The send button acts only when the input has something besides white space. */
  predicate CanSend(input: string): (b: bool)
    ensures b <==> exists i :: 0 <= i < |input| && !Text.IsWhitespace(input[i])
  {
    Text.Trim(input) != ""
  }

  /** An input of white space only is never sent. */
  lemma BlankInputIsNotSent(input: string)
    requires Text.AllWhitespace(input)
    ensures !CanSend(input)
  {
    Text.TrimStartOfWhitespace(input);
  }

  /** `JSON.parse(text)` as far as the screen reads it: `null`, or a value whose `fileTree` may be set. */
  datatype Json = JNull | JValue(fileTree: Option<FileTree>)

  /** What the receive callback does with one message. */
  datatype Received = Dropped | Accepted(message: ChatMessage, fileTree: Option<FileTree>)

  /**
   * The `project-message` callback: a missing message or text is dropped; a
   * text that is not JSON, or is JSON `null`, throws and is dropped; any
   * other message is appended, and its `fileTree`, when set, replaces the
   * screen's tree.
   */
  function Receive(data: Option<ChatMessage>, parse: string -> Option<Json>): (r: Received)
    ensures r.Accepted? <==>
      && data.Some? && Text.Present(data.value.newmessage)
      && parse(data.value.newmessage.value).Some? && parse(data.value.newmessage.value).value.JValue?
    ensures r.Accepted? ==> r.message == data.value && r.fileTree == parse(data.value.newmessage.value).value.fileTree
  {
    if data.None? || !Text.Present(data.value.newmessage) then Dropped
    else match parse(data.value.newmessage.value)
      case None => Dropped
      case Some(JNull) => Dropped
      case Some(JValue(tree)) => Accepted(data.value, tree)
  }

  /** A relayed plain-text chat line that is not JSON is not shown by the other members. */
  lemma PlainTextIsNotShown(data: ChatMessage, parse: string -> Option<Json>)
    requires data.newmessage.Some? && parse(data.newmessage.value).None?
    ensures Receive(Some(data), parse) == Dropped
  {
  }

  /** The screen's state variables, as one value. */
  datatype ScreenState = ScreenState(
    projectId: Option<string>, selectedUserIds: set<UserId>, openFiles: seq<string>, currentFile: Option<string>,
    fileTree: FileTree, messages: seq<ChatMessage>, input: string, sent: seq<ChatMessage>,
    savedTrees: seq<FileTree>, addRequests: seq<set<UserId>>)

  /** The state of the project screen. */
  class Screen {
    /** `location.state.project._id`, the id the screen was opened with. */
    const routeProjectId: Option<string>
    /** The logged-in user from the user context. */
    const user: Option<Identity>
    /** `project._id` of the loaded project. */
    var projectId: Option<string>
    var selectedUserIds: set<UserId>
    var openFiles: seq<string>
    var currentFile: Option<string>
    var fileTree: FileTree
    var messages: seq<ChatMessage>
    var input: string
    /** Messages emitted on the socket, in order. */
    var sent: seq<ChatMessage>
    /** File trees sent to `update-file-tree`, in order. */
    var savedTrees: seq<FileTree>
    /** User id sets sent to `add-user`, in order. */
    var addRequests: seq<set<UserId>>

    ghost predicate Valid()
      reads this
    {
      Collections.NoDup(openFiles)
    }

    /** Every state variable; each handler states its new value of this as a whole. */
    ghost function State(): ScreenState
      reads this
    {
      ScreenState(projectId, selectedUserIds, openFiles, currentFile, fileTree, messages, input, sent,
                  savedTrees, addRequests)
    }

    constructor (routeProjectId: Option<string>, user: Option<Identity>)
      ensures Valid()
      ensures this.routeProjectId == routeProjectId && this.user == user
      ensures State() == ScreenState(routeProjectId, {}, [], None, map[], [], "", [], [], [])
    {
      this.routeProjectId := routeProjectId;
      this.user := user;
      projectId := routeProjectId;
      selectedUserIds := {};
      openFiles := [];
      currentFile := None;
      fileTree := map[];
      messages := [];
      input := "";
      sent := [];
      savedTrees := [];
      addRequests := [];
    }

    /**
     * The load of `/projects/get-project/:id` when the screen mounts. Its
     * `project` is the array `find` returns, which is truthy even when empty:
     * `setProject` stores it, so `project._id` is undefined afterwards, and the
     * array has no `fileTree`, so the tree is kept. A failed request changes nothing.
     */
    method LoadProject(response: Option<seq<Project>>)
      requires Valid()
      modifies this
      ensures Valid()
      ensures State() == if response.Some? then old(State()).(projectId := None) else old(State())
    {
      if response.Some? {
        projectId := None;
      }
    }

    /** Once the project has loaded, an edit still changes the screen's tree but is never saved. */
    method EditAfterLoad(response: seq<Project>, contents: string)
      requires Valid()
      modifies this
      ensures Valid()
      ensures projectId.None? && savedTrees == old(savedTrees)
      ensures Text.Present(old(currentFile)) && old(currentFile).value in old(fileTree) ==>
        fileTree == WithContents(old(fileTree), old(currentFile).value, contents)
    {
      LoadProject(Some(response));
      EditorBlur(contents);
    }

    /** A click on a user in the collaborator list: only the selection changes. */
    method HandleUserClick(id: UserId)
      requires Valid()
      modifies this
      ensures Valid()
      ensures State() == old(State()).(selectedUserIds := Toggle(old(selectedUserIds), id))
    {
      selectedUserIds := Toggle(selectedUserIds, id);
    }

    /** A click on a file in the explorer: it becomes current and is opened once. */
    method OpenFileClick(file: string)
      requires Valid()
      modifies this
      ensures Valid()
      ensures State() == old(State()).(
        currentFile := Some(file),
        openFiles := if file in old(openFiles) then old(openFiles) else old(openFiles) + [file])
    {
      OpenFileAppendsOnce(openFiles, file);
      currentFile := Some(file);
      openFiles := OpenFile(openFiles, file);
    }

    /**
     * The editor's blur: the editor exists only for a current file that is in
     * the tree; that entry's contents are replaced and the new tree is saved
     * when a project id is loaded.
     */
    method EditorBlur(contents: string)
      requires Valid()
      modifies this
      ensures Valid()
      ensures !(Text.Present(old(currentFile)) && old(currentFile).value in old(fileTree)) ==> State() == old(State())
      ensures Text.Present(old(currentFile)) && old(currentFile).value in old(fileTree) ==>
        var tree := WithContents(old(fileTree), old(currentFile).value, contents);
        State() == old(State()).(
          fileTree := tree,
          savedTrees := if Text.Present(old(projectId)) then old(savedTrees) + [tree] else old(savedTrees))
    {
      if !Text.Present(currentFile) || currentFile.value !in fileTree {
        return;
      }
      var tree := WithContents(fileTree, currentFile.value, contents);
      fileTree := tree;
      SaveFileTree(tree);
    }

    /** `saveFileTree(ft)`: sent only when a project id is loaded; nothing else changes. */
    method SaveFileTree(tree: FileTree)
      requires Valid()
      modifies this
      ensures Valid()
      ensures State() == old(State()).(
        savedTrees := if Text.Present(old(projectId)) then old(savedTrees) + [tree] else old(savedTrees))
    {
      if !Text.Present(projectId) {
        return;
      }
      savedTrees := savedTrees + [tree];
    }

    /** The send button: white space only does nothing; otherwise the message is emitted, shown once, and the input cleared. */
    method Send()
      requires Valid()
      modifies this
      ensures Valid()
      ensures !CanSend(old(input)) ==> State() == old(State())
      ensures CanSend(old(input)) ==>
        State() == old(State()).(
          sent := old(sent) + [Outgoing(old(input), user)],
          messages := old(messages) + [Outgoing(old(input), user)],
          input := "")
    {
      if !CanSend(input) {
        return;
      }
      var message := Outgoing(input, user);
      sent := sent + [message];
      messages := messages + [message];
      input := "";
    }

    /** A `project-message` arriving from the server: only the message list and the tree can change. */
    method OnMessage(data: Option<ChatMessage>, parse: string -> Option<Json>)
      requires Valid()
      modifies this
      ensures Valid()
      ensures var r := Receive(data, parse);
              State() == old(State()).(
                messages := if r.Accepted? then old(messages) + [r.message] else old(messages),
                fileTree := if r.Accepted? && r.fileTree.Some? then r.fileTree.value else old(fileTree))
    {
      var r := Receive(data, parse);
      if r.Dropped? {
        return;
      }
      if r.fileTree.Some? {
        fileTree := r.fileTree.value;
      }
      messages := messages + [r.message];
    }

    /** The add-collaborators button: nothing is sent without a project id or with an empty selection. */
    method AddCollaborators()
      requires Valid()
      modifies this
      ensures Valid()
      ensures State() == old(State()).(
        addRequests := if Text.Present(routeProjectId) && selectedUserIds != {}
                       then old(addRequests) + [selectedUserIds] else old(addRequests))
    {
      if !Text.Present(routeProjectId) || selectedUserIds == {} {
        return;
      }
      addRequests := addRequests + [selectedUserIds];
    }
  }
}
