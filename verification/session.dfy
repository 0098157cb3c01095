/**
 * The editor page: one document text shared by the code view, the visual
 * builder and the chat panel, plus the templates saved in local storage.
 */
module Session {
  import opened Wrappers
  import opened Text
  import opened Json
  import Coercion
  import TreeEditor
  import Assistant

  /** The document text and the saved templates (name to text). */
  datatype EditorSession = EditorSession(text: string, saved: map<string, string>)

  /** Why an action left the session as it was (the page shows a notice instead). */
  datatype SessionError =
    | InvalidDocument                     // download, save or visual edit of text that does not parse
    | InvalidFile                         // an imported file that does not parse
    | MissingTemplate                     // a template name with nothing stored under it
    | EditFailed(error: TreeEditor.EditError)

  /** The validity flag the page derives from the text. */
  predicate IsValid(codec: Codec, s: EditorSession) {
    IsValidJson(codec, s.text)
  }

  /** The page opens on the built-in "user" template and whatever templates were stored. */
  function Start(builtins: map<string, string>, stored: map<string, string>): (r: EditorSession)
    requires "user" in builtins
    ensures r.text == builtins["user"] && r.saved == stored
  {
    EditorSession(builtins["user"], stored)
  }

  /** Typing in the code view replaces the text; validity follows the new text. */
  function SetText(s: EditorSession, text: string): (r: EditorSession)
    ensures r.text == text && r.saved == s.saved
    ensures forall codec :: IsValid(codec, r) <==> IsValidJson(codec, text)
  {
    s.(text := text)
  }

  // ---------------------------------------------------------------------------
  // Templates
  // ---------------------------------------------------------------------------

  const BuiltinPrefix: string := "builtin:"

  /** What picking `value` in the template menu does to the text. */
  datatype TemplateChoice = Keep | Use(text: string) | Missing

  /** "default" keeps the text; "builtin:" names a built-in; anything else names a saved template. */
  function ChooseTemplate(value: string, builtins: map<string, string>, saved: map<string, string>)
    : (r: TemplateChoice)
    ensures value == "default" ==> r == Keep
    ensures value != "default" && StartsWith(value, BuiltinPrefix) ==>
              r == (if value[|BuiltinPrefix|..] in builtins then Use(builtins[value[|BuiltinPrefix|..]]) else Missing)
    ensures value != "default" && !StartsWith(value, BuiltinPrefix) ==>
              r == (if value in saved then Use(saved[value]) else Missing)
  {
    if value == "default" then Keep
    else if StartsWith(value, BuiltinPrefix) then
      var key := value[|BuiltinPrefix|..];
      if key in builtins then Use(builtins[key]) else Missing
    else if value in saved then Use(saved[value])
    else Missing
  }

  /** handleLoadTemplate. */
  function LoadTemplate(s: EditorSession, value: string, builtins: map<string, string>)
    : (r: Result<EditorSession, SessionError>)
    ensures r.Ok? ==> r.value.saved == s.saved
    ensures ChooseTemplate(value, builtins, s.saved) == Keep ==> r == Ok(s)
    ensures ChooseTemplate(value, builtins, s.saved).Use? ==>
              r == Ok(s.(text := ChooseTemplate(value, builtins, s.saved).text))
    ensures ChooseTemplate(value, builtins, s.saved) == Missing ==> r == Err(MissingTemplate)
  {
    match ChooseTemplate(value, builtins, s.saved)
    case Keep => Ok(s)
    case Use(text) => Ok(SetText(s, text))
    case Missing => Err(MissingTemplate)
  }

  /**
   * A template saved as "default" or under a name beginning "builtin:" can never
   * be loaded back: what the menu does with that name does not depend on what
   * is saved.
   */
  lemma ReservedNamesShadowSaved(value: string, builtins: map<string, string>,
                                 saved1: map<string, string>, saved2: map<string, string>)
    requires value == "default" || StartsWith(value, BuiltinPrefix)
    ensures ChooseTemplate(value, builtins, saved1) == ChooseTemplate(value, builtins, saved2)
  {
  }

  /** handleSaveTemplate: only valid text is saved; an empty or cancelled name saves nothing. */
  function SaveTemplate(s: EditorSession, name: Option<string>, codec: Codec)
    : (r: Result<EditorSession, SessionError>)
    ensures !IsValid(codec, s) ==> r == Err(InvalidDocument)
    ensures IsValid(codec, s) && (name.None? || name.value == []) ==> r == Ok(s)
    ensures IsValid(codec, s) && name.Some? && name.value != [] ==>
              && r.Ok? && r.value.text == s.text
              && r.value.saved.Keys == s.saved.Keys + {name.value}
              && r.value.saved[name.value] == s.text
              && (forall n :: n in s.saved && n != name.value ==> r.value.saved[n] == s.saved[n])
  {
    if !IsValid(codec, s) then Err(InvalidDocument)
    else
      match name
      case None => Ok(s)
      case Some(n) => if n == [] then Ok(s) else Ok(s.(saved := s.saved[n := s.text]))
  }

  /**
   * Saving under an ordinary name and loading that name later, whatever the
   * text is by then, brings the saved text back.
   */
  lemma SaveThenLoad(s: EditorSession, name: string, codec: Codec, later: string, builtins: map<string, string>)
    requires IsValid(codec, s)
    requires name != [] && name != "default" && !StartsWith(name, BuiltinPrefix)
    ensures SaveTemplate(s, Some(name), codec).Ok?
    ensures var edited := SetText(SaveTemplate(s, Some(name), codec).value, later);
            LoadTemplate(edited, name, builtins) == Ok(edited.(text := s.text))
  {
  }

  // ---------------------------------------------------------------------------
  // Files
  // ---------------------------------------------------------------------------

  datatype File = File(name: string, mimeType: string, content: string)

  /** handleDownload: the text exactly as it stands, when it is valid. */
  function Download(s: EditorSession, codec: Codec): (r: Result<File, SessionError>)
    ensures !IsValid(codec, s) ==> r == Err(InvalidDocument)
    ensures IsValid(codec, s) ==> r == Ok(File("data.json", "application/json", s.text))
  {
    if IsValid(codec, s) then Ok(File("data.json", "application/json", s.text)) else Err(InvalidDocument)
  }

  /** handleImport: a file that parses replaces the text with its formatted form. */
  function Import(s: EditorSession, content: string, codec: Codec): (r: Result<EditorSession, SessionError>)
    ensures codec.parse(content).None? ==> r == Err(InvalidFile)
    ensures codec.parse(content).Some? ==>
              r.Ok? && r.value.saved == s.saved && r.value.text == codec.pretty(codec.parse(content).value)
    ensures ValidCodec(codec) && r.Ok? ==>
              IsValid(codec, r.value) && codec.parse(r.value.text) == codec.parse(content)
  {
    match codec.parse(content)
    case None => Err(InvalidFile)
    case Some(v) => Ok(SetText(s, codec.pretty(v)))
  }

  /** Importing a downloaded file gives the same document, and a second round trip changes nothing. */
  lemma DownloadThenImport(s: EditorSession, codec: Codec)
    requires ValidCodec(codec) && IsValid(codec, s)
    ensures var once := Import(s, Download(s, codec).value.content, codec);
            && once.Ok?
            && codec.parse(once.value.text) == codec.parse(s.text)
            && Import(once.value, Download(once.value, codec).value.content, codec) == once
  {
    FormatIdempotent(codec, s.text);
  }

  // ---------------------------------------------------------------------------
  // The chat panel's "Apply to Editor"
  // ---------------------------------------------------------------------------

  datatype ApplyNotice = Applied | NoJsonFound | InvalidJsonInMessage

  /** applyJsonFromMessage: the first fenced json block, formatted, replaces the text. */
  function ApplyFromMessage(s: EditorSession, message: string, codec: Codec): (r: (EditorSession, ApplyNotice))
    ensures r.1 != Applied ==> r.0 == s
    ensures r.1 == NoJsonFound <==>
              Assistant.ExtractJsonBlock(message).None? || Assistant.ExtractJsonBlock(message).value == []
    ensures r.1 == Applied ==>
              && r.0.saved == s.saved
              && codec.parse(Assistant.ExtractJsonBlock(message).value).Some?
              && r.0.text == codec.pretty(codec.parse(Assistant.ExtractJsonBlock(message).value).value)
    ensures var block := Assistant.ExtractJsonBlock(message);
            block.Some? && block.value != [] ==>
              (r.1 == Applied <==> codec.parse(block.value).Some?) &&
              (r.1 == InvalidJsonInMessage <==> codec.parse(block.value).None?)
    ensures ValidCodec(codec) && r.1 == Applied ==> IsValid(codec, r.0)
  {
    match Assistant.ExtractJsonBlock(message)
    case None => (s, NoJsonFound)
    case Some(block) =>
      if block == [] then (s, NoJsonFound)   // an empty capture is falsy
      else
        match codec.parse(block)
        case None => (s, InvalidJsonInMessage)
        case Some(v) => (SetText(s, codec.pretty(v)), Applied)
  }

  /**
   * A reply that fences the editor's own formatted document, with no backquote
   * in it or before it, puts that document back when applied.
   */
  lemma ApplyOwnDocument(s: EditorSession, v: Json, pre: string, post: string, codec: Codec)
    requires ValidCodec(codec) && Wf(v)
    requires '`' !in pre && '`' !in codec.pretty(v) && !IsBlank(codec.pretty(v))
    ensures var message := pre + Assistant.Opener + codec.pretty(v) + Assistant.Closer + post;
            ApplyFromMessage(s, message, codec) == (s.(text := codec.pretty(v)), Applied)
  {
    Assistant.ExtractOfFence(pre, codec.pretty(v), post);
  }

  // ---------------------------------------------------------------------------
  // The visual builder
  // ---------------------------------------------------------------------------

  /** One action of the visual builder, with the path it acts at. */
  datatype VisualAction =
    | AddKey(path: Path)
    | RemoveKey(key: string, path: Path)
    | RenameKey(oldKey: string, newKey: string, path: Path)
    | SetValue(key: string, raw: Json, valueType: ValueType, path: Path)
    | AddItem(path: Path)
    | RemoveItem(index: nat, path: Path)
    | MoveUp(index: nat, path: Path)
    | MoveDown(index: nat, path: Path)

  /** The actions the array renderer offers. */
  predicate IsArrayAction(a: VisualAction) {
    a.AddItem? || a.RemoveItem? || a.MoveUp? || a.MoveDown?
  }

  /** The editor operation an action calls, on the value the builder shows. */
  function Perform(root: Json, a: VisualAction, num: Coercion.NumberText): (r: Result<Json, TreeEditor.EditError>)
    ensures Wf(root) && r.Ok? ==> Wf(r.value)
  {
    if IsArrayAction(a) then PerformOnArray(root, a) else PerformOnObject(root, a, num)
  }

  function PerformOnArray(root: Json, a: VisualAction): (r: Result<Json, TreeEditor.EditError>)
    requires IsArrayAction(a)
    ensures Wf(root) && r.Ok? ==> Wf(r.value)
  {
    if a.AddItem? then TreeEditor.AddArrayItem(root, a.path)
    else if a.RemoveItem? then TreeEditor.RemoveArrayItem(root, a.index, a.path)
    else if a.MoveUp? then TreeEditor.MoveArrayItemUp(root, a.index, a.path)
    else TreeEditor.MoveArrayItemDown(root, a.index, a.path)
  }

  function PerformOnObject(root: Json, a: VisualAction, num: Coercion.NumberText): (r: Result<Json, TreeEditor.EditError>)
    requires !IsArrayAction(a)
    ensures Wf(root) && r.Ok? ==> Wf(r.value)
  {
    if a.AddKey? then TreeEditor.AddKeyValue(root, a.path)
    else if a.RemoveKey? then TreeEditor.RemoveKeyValue(root, a.key, a.path)
    else if a.RenameKey? then TreeEditor.UpdateKey(root, a.oldKey, a.newKey, a.path)
    else TreeEditor.UpdateValue(root, a.key, a.raw, a.valueType, num, a.path)
  }

  /**
   * The builder shows the parsed text; an action edits that value and the text
   * becomes the edited value, formatted. Text that does not parse hides the builder.
   */
  function VisualEdit(s: EditorSession, a: VisualAction, codec: Codec, num: Coercion.NumberText)
    : (r: Result<EditorSession, SessionError>)
    ensures !IsValid(codec, s) ==> r == Err(InvalidDocument)
    ensures IsValid(codec, s) && Perform(codec.parse(s.text).value, a, num).Err? ==>
              r == Err(EditFailed(Perform(codec.parse(s.text).value, a, num).error))
    ensures r.Ok? ==> r.value.saved == s.saved
    ensures IsValid(codec, s) && Perform(codec.parse(s.text).value, a, num).Ok? ==>
              r == Ok(s.(text := codec.pretty(Perform(codec.parse(s.text).value, a, num).value)))
    ensures ValidCodec(codec) && r.Ok? ==>
              IsValid(codec, r.value) &&
              codec.parse(r.value.text) == Some(Perform(codec.parse(s.text).value, a, num).value)
  {
    match codec.parse(s.text)
    case None => Err(InvalidDocument)
    case Some(v) =>
      match Perform(v, a, num)
      case Err(e) => Err(EditFailed(e))
      case Ok(v') => Ok(SetText(s, codec.pretty(v')))
  }

  /**
   * While the builder is open, valid text is re-serialised from its parsed
   * value; doing so twice is the same as doing it once.
   */
  function Reformat(s: EditorSession, codec: Codec): (r: EditorSession)
    ensures !IsValid(codec, s) ==> r == s
    ensures IsValid(codec, s) ==> r == s.(text := codec.pretty(codec.parse(s.text).value))
    ensures r.saved == s.saved
    ensures ValidCodec(codec) && IsValid(codec, s) ==> codec.parse(r.text) == codec.parse(s.text)
  {
    match codec.parse(s.text)
    case None => s
    case Some(v) => SetText(s, codec.pretty(v))
  }

  /** The builder's re-serialisation settles after one step. */
  lemma ReformatIdempotent(s: EditorSession, codec: Codec)
    requires ValidCodec(codec)
    ensures Reformat(Reformat(s, codec), codec) == Reformat(s, codec)
  {
    if IsValid(codec, s) {
      FormatIdempotent(codec, s.text);
    }
  }

  /** A builder action whose effect a second action undoes leaves the text formatted. */
  lemma VisualUndo(s: EditorSession, a1: VisualAction, a2: VisualAction, codec: Codec,
                   num: Coercion.NumberText, v: Json, v1: Json)
    requires ValidCodec(codec) && codec.parse(s.text) == Some(v)
    requires Perform(v, a1, num) == Ok(v1) && Perform(v1, a2, num) == Ok(v)
    ensures VisualEdit(s, a1, codec, num).Ok?
    ensures VisualEdit(VisualEdit(s, a1, codec, num).value, a2, codec, num) == Ok(Reformat(s, codec))
  {
    VisualEditStep(s, a1, codec, num, v, v1);
    VisualEditStep(SetText(s, codec.pretty(v1)), a2, codec, num, v1, v);
  }

  /** Through the builder, moving an element up is the editor's move. */
  lemma PerformMoveUp(v: Json, index: nat, path: Path, num: Coercion.NumberText, w: Json)
    requires TreeEditor.MoveArrayItemUp(v, index, path) == Ok(w)
    ensures Perform(v, MoveUp(index, path), num) == Ok(w)
  {
  }

  /** Through the builder, moving an element down is the editor's move. */
  lemma PerformMoveDown(v: Json, index: nat, path: Path, num: Coercion.NumberText, w: Json)
    requires TreeEditor.MoveArrayItemDown(v, index, path) == Ok(w)
    ensures Perform(v, MoveDown(index, path), num) == Ok(w)
  {
  }

  lemma VisualEditStep(s: EditorSession, a: VisualAction, codec: Codec, num: Coercion.NumberText, v: Json, v': Json)
    requires ValidCodec(codec) && codec.parse(s.text) == Some(v)
    requires Perform(v, a, num) == Ok(v')
    ensures VisualEdit(s, a, codec, num) == Ok(SetText(s, codec.pretty(v')))
    ensures codec.parse(codec.pretty(v')) == Some(v')
  {
  }
}
