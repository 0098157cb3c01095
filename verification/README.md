# JSON editor core, modelled in Dafny

This project models the core of a browser JSON editor. The editor keeps one document as text. Three views share that text:

- a code view;
- a visual builder, which edits the parsed tree;
- a chat panel, which sends the conversation and the document to a chat endpoint. The panel can apply a ```json block from a reply to the document.

Modules, one per part of the program:

- `Wrappers`: `Option` and `Result`.
- `Text`: the string built-ins the program relies on. These are `trim`, `toLowerCase`, `includes`, `split`/`join` and `index.toString()`.
- `Json`: values with insertion-ordered members. It also defines property assignment and deletion, walking a path (array indices are written as decimal text), and an abstract `Codec` that stands for `JSON.parse` and `JSON.stringify(v, null, 2)`.
- `Coercion`: the builder's type selector.
- `TreeEditor`: the builder's copy-on-write edits. Each edit copies the document, walks a path to its target, and makes one change there.
- `ChatRoute`: the `POST /api/chat` handler. This covers request validation, the prompt, the 500-character upstream input, the choice between the upstream text and the local keyword responder, and the error responses.
- `Assistant`: the chat panel. This covers sending a turn, receiving the answer, the regular expression that finds the block to apply, and splitting a message into prose and code segments.
- `Serial`: a concrete parser and printer, not the JSON grammar, that meet every assumption the model makes of `JSON.parse` and `JSON.stringify`. It shows that those assumptions can all hold at once.
- `Session`: the editor page. This covers the document text, templates built in and saved, download, import, applying a reply, and visual edits re-serialised as text.

Where the code and its documentation differ, the model follows the code:

- The generated key is `newKey<n>`, where n is one more than the number of keys of the ROOT document, not of the target object. No collision is retried: if the name exists, its value is overwritten.
- Removing a key that is absent is a silent no-op, not an error.
- "Apply to Editor" always applies the FIRST ```json block of the message, whichever block's button is pressed.
- A rename to a key that `o[key] !== undefined` reports as present is refused. This includes the names objects inherit, such as `toString`.

## Model

| member | source | states |
|---|---|---|
| Json.ValueTypeMatchesShape | components/visual-editor.tsx:223-230 | each value gets exactly one of the six type names, the one its shape names (iff, for all six) |
| Json.Put | components/visual-editor.tsx:57 | assignment makes the key map to the value and leaves other lookups alone. An existing key keeps its place; a new key is appended last. Distinct keys stay distinct |
| Json.Remove | components/visual-editor.tsx:74 | deletion makes the key absent and leaves other lookups alone. Deleting an absent key changes nothing; otherwise one member fewer when keys are distinct |
| Json.KeyIndex | components/visual-editor.tsx:74 | the position of the member a key names: it carries the key, holds the looked-up value, and no earlier member carries the key |
| Json.RemoveSplices | components/visual-editor.tsx:74 | with distinct keys, deleting a present key cuts out exactly the member at its position; the members before and after it keep their order |
| Json.HasKeyIff | components/visual-editor.tsx:85 | a key is present exactly when some member carries it |
| Json.ArrayIndexOfText | components/visual-editor.tsx:268 | the decimal text `index.toString()` produces is read back by property access as the same array index |
| Json.SetChild | components/visual-editor.tsx:48-54 | replacing one child of the copied node changes that child only |
| Json.FormatIdempotent | components/main-editor.tsx:43-50 | formatting already formatted text gives the same text |
| Json.PrettyOfParsedIsValid | components/main-editor.tsx:141-145 | re-serialised parsed text parses back to the same value |
| Serial.ValidCodecIsMet | components/main-editor.tsx:143-144 | some parser and printer meet every assumption made of `JSON.parse` and `JSON.stringify`: printed values parse back, and parsed values have distinct keys |
| Coercion.Coerce | components/visual-editor.tsx:122-145 | picking a type yields a value of that type, except that a NaN or infinite number becomes null. Strings and numbers are kept as they are. Only the text "true" gives true. The object, array and null types give {}, [] and null |
| Coercion.BooleanFromText | components/visual-editor.tsx:131-133 | switching text to boolean gives true exactly for "true" |
| Coercion.BooleanThroughString | components/visual-editor.tsx:125-133 | a boolean switched to string and back is unchanged |
| TreeEditor.SetSlot | components/visual-editor.tsx:148 | writing past the end of an array grows it to index+1 and fills the holes with null; every other slot is unchanged |
| TreeEditor.SwapInBounds | components/visual-editor.tsx:200 | the destructuring swap exchanges exactly the two elements and permutes the array |
| TreeEditor.SwapTwice | components/visual-editor.tsx:200 | swapping back restores the array |
| TreeEditor.EditAt | components/visual-editor.tsx:48-57 | a missing step gives PathNotFound. A target that rejects the change gives that error. Otherwise the edited document has, at the same path, the changed target |
| TreeEditor.EditAtFrame | components/visual-editor.tsx:48-54 | every node on a path that diverges from the edited one is the same after the edit |
| TreeEditor.EditAtWf | components/visual-editor.tsx:48-57 | edits keep every object's keys distinct |
| TreeEditor.EditAtIdentity | components/visual-editor.tsx:48-57 | a change that leaves its target as it was leaves the whole document as it was |
| TreeEditor.EditAtUndo | components/visual-editor.tsx:48-57 | a second change that restores the target undoes the first edit of the whole document |
| TreeEditor.PathToElement | components/visual-editor.tsx:264-268 | the path the array renderer builds for element i leads to element i |
| TreeEditor.NewKeyIsNoIndex | components/visual-editor.tsx:44 | the generated key is never an array index, so adding a property on an array does nothing |
| TreeEditor.AddKeyValue | components/visual-editor.tsx:43-60 | on an object target, the generated key maps to "" and is appended when new; other keys are unchanged. A primitive target is WrongKind, a missing path is PathNotFound, an array target is unchanged |
| TreeEditor.RemoveKeyValue | components/visual-editor.tsx:63-77 | the key is absent afterwards and other lookups are unchanged. With distinct keys, exactly the member carrying the key is cut out and the others keep their order. An absent key leaves the document unchanged. On an array, an in-range index becomes null |
| TreeEditor.UpdateKey | components/visual-editor.tsx:80-109 | the same name is a no-op. A key already defined is DuplicateKey. Otherwise the value moves to the new key, which comes last, the old key is gone and others are unchanged. With distinct keys, the old member is cut out, the rest keep their order, the moved value is appended under the new key, and the member count is kept |
| TreeEditor.RemoveDeletes | components/visual-editor.tsx:74 | `delete` on an object yields the deleted form: the key reads as absent, other keys read as before, and with distinct keys the one member is cut out in place |
| TreeEditor.RemovePutRenames | components/visual-editor.tsx:104-106 | delete-then-assign of a present key to a fresh one yields the renamed form: the value under the new key, placed last, the old key absent, the other members in their order |
| TreeEditor.UpdateValue | components/visual-editor.tsx:112-151 | the coerced value is written under the key of the object, or at the index of the array; every other entry is unchanged |
| TreeEditor.AddArrayItem | components/visual-editor.tsx:154-168 | the target array is the old array followed by one empty string; non-arrays are WrongKind |
| TreeEditor.RemoveArrayItem | components/visual-editor.tsx:171-185 | element index is dropped, the others keep their order, and the multiset loses exactly that element. An index out of range changes nothing |
| TreeEditor.MoveArrayItemUp | components/visual-editor.tsx:188-203 | index 0 is a no-op; otherwise elements index and index-1 trade places, others stay, and the multiset is kept |
| TreeEditor.MoveArrayItemDown | components/visual-editor.tsx:206-220 | the last index is a no-op; otherwise elements index and index+1 trade places, others stay, and the multiset is kept |
| TreeEditor.SpliceOut | components/visual-editor.tsx:182 | `splice(index, 1)` in range removes exactly that element: one shorter, the prefix kept, the suffix shifted down by one, the multiset less that element |
| TreeEditor.EditSplicesAt | components/visual-editor.tsx:171-185 | splicing an element out of the array at a path succeeds, and the array found there afterwards is the old one with that element removed |
| TreeEditor.EditSwapsAt | components/visual-editor.tsx:188-220 | a change that swaps two slots of the array at a path leaves, at that path, an array with exactly those two elements exchanged and the same multiset |
| TreeEditor.EditDeletesMember | components/visual-editor.tsx:63-77 | deleting a key of the object at a path succeeds, and the object found there afterwards has that member removed |
| TreeEditor.EditDeletesElement | components/visual-editor.tsx:63-77 | `delete` on the array at a path leaves null at an in-range index and changes nothing for any other name |
| TreeEditor.EditRenamesMember | components/visual-editor.tsx:80-109 | renaming an existing key to an undefined one moves the value: the old member is removed and the new key is put last with the old value |
| TreeEditor.MoveUpThenDown | components/visual-editor.tsx:188-220 | moving an element up and then down again restores the document |
| TreeEditor.AddItemThenRemove | components/visual-editor.tsx:154-185 | adding an item and removing the last one restores the document |
| TreeEditor.AddKeyThenRemove | components/visual-editor.tsx:43-77 | adding the generated key (when new) and removing it restores the document |
| TreeEditor.RenameBack | components/visual-editor.tsx:80-109 | renaming a key and renaming it back restores every lookup of the object |
| TreeEditor.AddKeyExample | components/visual-editor.tsx:43-60 | adding a property to {"a":1} gives {"a":1,"newKey2":""} |
| ChatRoute.BuildPrompt | app/api/chat/route.ts:23-41 | the prompt is exactly four adjacent parts: the fixed instructions, then the earlier turns, then the fenced document when there is one, then the last message's human line and the cue. Each part sits at its offset and the lengths add up to the whole |
| ChatRoute.ContextBlock | app/api/chat/route.ts:32-35 | a truthy context string becomes a heading line followed by the text inside a ```json fence; a missing or empty one adds nothing |
| ChatRoute.UpstreamInput | app/api/chat/route.ts:65 | the upstream input is the prompt's prefix of length min(500, length) |
| ChatRoute.ChooseReply | app/api/chat/route.ts:79-93 | a non-blank generated text is used trimmed; otherwise the local reply stands |
| ChatRoute.SourceRepliesNonEmpty | app/api/chat/route.ts:105-149 | every fixed reply the endpoint ships with, and the connection fallback, is non-empty |
| ChatRoute.SimpleResponse | app/api/chat/route.ts:139-147 | the "I notice you have some JSON" reply comes only with a truthy context, the "I'll need to see the code" reply only without one |
| ChatRoute.SimpleResponseFollowsRules | app/api/chat/route.ts:118-150 | the reply's topic is that of the first keyword group the lower-cased message mentions, trying greeting, generate, explain and fix in that order, and general when none matches |
| ChatRoute.GenerateFollowsSamples | app/api/chat/route.ts:125-135 | a generate request gets the user profile sample when it mentions "user" or "profile", else the product sample when it mentions "product", else the help text |
| ChatRoute.FixFollowsContext | app/api/chat/route.ts:141-146 | a fix request gets the "I notice you have some JSON" reply exactly with a truthy context, otherwise the "I'll need to see the code" reply |
| ChatRoute.SimpleResponseIgnoresCase | app/api/chat/route.ts:119 | the local reply does not depend on letter case |
| ChatRoute.ContextMattersOnlyForFix | app/api/chat/route.ts:141-146 | outside the fix/validate/error topic the document does not change the reply |
| ChatRoute.EmptyContextIsAbsent | app/api/chat/route.ts:33-142 | an empty context string acts exactly like no context, in the prompt and in the reply |
| ChatRoute.GreetingFirst | app/api/chat/route.ts:121-123 | a message mentioning "hello" gets the greeting whatever else it says |
| ChatRoute.Handle | app/api/chat/route.ts:3-115 | a body that does not parse is 500, missing or non-array messages are 400, an empty list is 500. Status 200 comes exactly for a non-empty list, and its message is non-empty whenever the table of fixed replies has non-empty texts. A non-string last content gives the connection fallback; otherwise the reply is the trimmed upstream text if non-blank, else the local reply |
| Assistant.Wire | components/ai-assistant.tsx:69 | the request carries the transcript one message per turn, in order |
| Assistant.Send | components/ai-assistant.tsx:56-81 | a blank input does nothing. Otherwise the user turn is appended, the box cleared, and the whole transcript sent, with the document as context exactly when it is valid |
| Assistant.Receive | components/ai-assistant.tsx:83-91 | a 2xx answer is appended as an assistant turn; an error status leaves the transcript unchanged |
| Assistant.ExchangeAppendsAnswer | components/ai-assistant.tsx:56-103 | a non-blank question ends with the question and a non-empty assistant answer appended, whatever the upstream model does, when the endpoint's fixed replies are non-empty |
| Assistant.ReceiveAnswer | components/ai-assistant.tsx:83-91 | a successful non-empty answer lands right after the turn that asked for it, and the earlier transcript is kept |
| Assistant.FenceSpan | components/ai-assistant.tsx:110 | finds the leftmost match of the regular expression, and the shortest one at that start; None exactly when nothing matches |
| Assistant.ExtractJsonBlock | components/ai-assistant.tsx:110-111 | the capture exists exactly when the expression matches, is the text between ```json and the first following newline-fence, and contains no newline-fence |
| Assistant.RenderPart | components/ai-assistant.tsx:174-199 | even pieces show exactly when not blank and show as they are. An odd piece is trimmed. Its code is what follows the first newline, or the whole piece when it has one line. It shows exactly when that code is not blank, as that code under the language its first line names |
| Assistant.LinesOfPiece | components/ai-assistant.tsx:185-193 | the first of the split lines is the text before the first newline, and joining the other lines gives back the text after it |
| Assistant.CodeLanguage | components/ai-assistant.tsx:188 | the label is the trimmed first line, or "text" when that line is blank; it is never empty, has no outer whitespace, and has no newline when the line has none |
| Assistant.RenderOfLabelledPiece | components/ai-assistant.tsx:182-201 | a code piece whose trimmed text is a label line and visible code renders as a code block with that label and exactly that code |
| Assistant.RenderParts | components/ai-assistant.tsx:174-199 | piece k of the split message is rendered as piece k, by its own index |
| Assistant.CollectKeeps | components/ai-assistant.tsx:174-199 | every piece that renders appears among the message's segments |
| Assistant.CollectSound | components/ai-assistant.tsx:174-199 | every segment shown is the rendering of some piece of the message |
| Assistant.FindAroundFree | components/ai-assistant.tsx:110 | with no backquote before the opener and none between the opener and the closer, the search finds the opener there and the first closer after it |
| Assistant.ExtractOfFence | components/ai-assistant.tsx:110 | with no backquote before or inside it, the first json fence yields exactly its contents |
| Assistant.SplitOfFence | components/ai-assistant.tsx:174 | splitting at ``` puts the prose before the fence first and the fenced piece second |
| Assistant.FencedJsonIsOffered | components/ai-assistant.tsx:110-214 | such a message shows a json code block with the apply button, and the button takes exactly the fenced text |
| Text.Trim | app/api/chat/route.ts:89-90 | the result is the input without leading and trailing whitespace; it is empty exactly for all-whitespace input |
| Text.TrimIdempotent | app/api/chat/route.ts:90 | trimming twice is trimming once |
| Text.ToLower | app/api/chat/route.ts:119 | lower-casing keeps length and maps each character |
| Text.FindFrom | app/api/chat/route.ts:121 | the result is the first occurrence at or after the start; None means there is none |
| Text.BeforeFirstIsFree | components/ai-assistant.tsx:174 | the text before the first occurrence of a separator does not contain it |
| Text.JoinSplit | components/ai-assistant.tsx:174 | joining the pieces of a split with the separator gives back the text |
| Text.SplitPartsFree | components/ai-assistant.tsx:174 | no piece of a split contains the separator |
| Text.SplitJoin | components/ai-assistant.tsx:185-193 | splitting a join at a character absent from the pieces gives back the pieces |
| Text.DigitsValueOfNatToString | components/visual-editor.tsx:268 | the decimal text of n is canonical and reads back as n |
| Text.NatToStringOfDigitsValue | components/visual-editor.tsx:268 | canonical decimal text is the text of its own value |
| Session.Start | components/main-editor.tsx:18-20 | the page opens on the built-in user template with the stored templates |
| Session.SetText | components/main-editor.tsx:33-40 | typing replaces the text, and validity follows the new text |
| Session.ChooseTemplate | components/main-editor.tsx:114-122 | "default" keeps the text. A "builtin:" name gives that built-in. Any other name gives the saved template of that name, and is missing exactly when none is saved |
| Session.LoadTemplate | components/main-editor.tsx:114-128 | loading replaces the text with the chosen template and keeps the saved ones; a name with nothing stored is an error |
| Session.ReservedNamesShadowSaved | components/main-editor.tsx:115-119 | a template saved as "default" or under a "builtin:" name can never be loaded back |
| Session.SaveTemplate | components/main-editor.tsx:89-111 | invalid text is refused. An empty or cancelled name saves nothing. Otherwise the name now maps to the text and every other template is unchanged |
| Session.SaveThenLoad | components/main-editor.tsx:89-128 | a template saved under an ordinary name is loaded back intact, whatever the text is by then |
| Session.Download | components/main-editor.tsx:62-86 | valid text is downloaded exactly as data.json; invalid text is refused |
| Session.Import | components/main-editor.tsx:131-157 | a file that parses becomes the formatted document with the same value; one that does not is refused and nothing changes |
| Session.DownloadThenImport | components/main-editor.tsx:62-157 | importing a downloaded file gives the same value, and a second round trip changes nothing |
| Session.ApplyFromMessage | components/ai-assistant.tsx:108-135 | with no block or an empty one, "No JSON Found" and nothing changes. A non-empty block is applied exactly when it parses, and the formatted block becomes the document. A block that does not parse gives the invalid-JSON notice and changes nothing |
| Session.ApplyOwnDocument | components/ai-assistant.tsx:108-135 | applying a reply that fences the document's own formatted text puts it back unchanged |
| Session.Perform | components/visual-editor.tsx:43-220 | every builder action keeps object keys distinct |
| Session.VisualEdit | components/main-editor.tsx:43-50 | text that does not parse hides the builder. A failed action changes nothing. A successful one makes the text the edited value printed, and that text parses to exactly the edited value |
| Session.Reformat | components/visual-editor.tsx:26-40 | text that parses becomes its value printed, and that text parses to the same value. Other text and the saved templates are untouched |
| Session.ReformatIdempotent | components/visual-editor.tsx:26-40 | re-serialising settles after one step |
| Session.VisualUndo | components/main-editor.tsx:43-50 | a builder action followed by one that restores the edited value leaves the page on the same document, formatted |
| Session.PerformMoveUp | components/visual-editor.tsx:188-203 | the builder's move-up button performs the editor's moveArrayItemUp |
| Session.PerformMoveDown | components/visual-editor.tsx:206-220 | the builder's move-down button performs the editor's moveArrayItemDown |

## Left out

- The React rendering, the two `useEffect` hooks and the state updates they trigger are not modelled step by step. `Session.Reformat` and `ReformatIdempotent` cover their fixed point. The one-render lag of the validity flag is not modelled.
- The JSON grammar is not modelled. `Json.Codec` is a parameter, with one assumption: what it prints it parses back, and every parsed value has distinct keys. `Serial` gives one codec that meets it.
- Floating point is not modelled. A number is an exact decimal, mantissa times a power of ten, in one canonical spelling. Every finite double has such a value, but the rounding of large or long numbers to doubles is not modelled. `Number(...)` and `String(n)` are the parameter `Coercion.NumberText`. A NaN or infinite result is stored as null, which is what the next stringify writes.
- `String(...)` of a nested object is `[object Object]`, and arrays join their elements with commas. Symbols, functions and `undefined` never occur in parsed JSON.
- Objects keep insertion order. JavaScript lists integer-like keys first, and that ordering is not modelled.
- TreeEditor.AddKeyValue, TreeEditor.RemoveKeyValue and TreeEditor.UpdateValue on an array target are modelled for the index and non-index cases. A named property or `length` written on an array is dropped, which matches the serialised result. An assignment to `length` that truncates the array is not modelled.
- TreeEditor.MoveArrayItemUp and TreeEditor.MoveArrayItemDown return WrongKind when the target is an object. The source's swap would instead trade the properties named by the decimal index and its neighbour, creating missing ones as `undefined`. The builder shows the move buttons only beside array elements, so the page does not reach this case.
- TreeEditor.UpdateKey returns WrongKind for a rename on an array target, which the page reaches when the root document is an array. The source first deletes the old name, so an in-range old index leaves a hole that serialises as null. It then assigns the old value to the new name. An index at or past the end puts the element there and fills any gap with null; any other name is dropped on serialisation.
- Session.LoadTemplate returns an error for a name with nothing stored, where the page would store `undefined` in the editor. The menu lists every saved name, so this is reachable: a template saved as `builtin:foo` is offered, and loading it looks up the missing built-in `foo`. A template saved as `default` is offered too, and loading it does nothing, as in the model.
- The network call, its 8-second timeout, the API key and `isLoading` are left out. The upstream model is the function parameter `upstream` of `ChatRoute.Handle`. A thrown fetch or a non-ok response is the `Unavailable` answer.
- ChatRoute.Handle treats a body that does not parse as the 500 case. Bodies that parse to something other than an object are not modelled, and neither are message entries that are not objects or are null.
- ChatRoute.UpstreamInput counts characters, not UTF-16 code units.
- ChatRoute.Request carries `jsonContext` as an optional string. A truthy context that is not a string would be written into the prompt by JavaScript string conversion, for example as `[object Object]`; that case is not modelled. The page's own chat panel only sends a string.
- Text.ToLower lowers ASCII letters only. Only U+0130 and U+212A lower-case to ASCII, and neither can create or destroy a keyword match.
- ChatRoute.Handle states that a 200 reply is non-empty, not that it is non-blank. That every fixed reply is non-blank holds but is not proved.
- Copy to clipboard, `prompt()`, `FileReader`, `Blob`, toasts and local storage persistence are not modelled. Their inputs and outputs are parameters or results.
- The quick prompts, the scroll behaviour, the code editor component, the templates library contents and the landing-page components are not part of this model.
