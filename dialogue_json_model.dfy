/**
 * The JSON interchange form: a flat list of dialogs.  A choice carries no port
 * index (its position in the list is its index) and no record carries a
 * position, so the form holds no layout.  An absent nextId is "".
 */
module DialogueJsonModel {

  datatype DialogueJsonChoice = DialogueJsonChoice(text: string, nextId: string, callback: string)

  datatype DialogueJsonDialog = DialogueJsonDialog(
    id: string,
    speaker: string,
    text: string,
    nextId: string,
    callback: string,
    choices: seq<DialogueJsonChoice>)

  datatype DialogueJsonRoot = DialogueJsonRoot(dialogs: seq<DialogueJsonDialog>)

  /** `new DialogueJsonDialog { id, speaker, text, callback }`: no nextId and an empty choice list. */
  function NewDialog(id: string, speaker: string, text: string, callback: string): (d: DialogueJsonDialog)
    ensures d.id == id && d.speaker == speaker && d.text == text && d.callback == callback
    ensures d.nextId == "" && d.choices == []
  {
    DialogueJsonDialog(id, speaker, text, "", callback, [])
  }
}
