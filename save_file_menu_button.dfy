/** Assets/SaveFileMenuButton.cs: one save slot of the main menu. The load
    button continues the saved game or starts a new one in the slot; the
    delete button asks for a second press before it deletes the save, and
    withdraws the question after a delay. */
module SaveSlots {
  import opened Wrappers
  import opened Text
  import opened FileOperations

  /** The text of the load button when the slot holds a save. */
  function LoadLabel(slot: int): (r: string)
    ensures StartsWith(r, "Load ") && r[5..] == IntToString(slot)
  {
    "Load " + IntToString(slot)
  }

  /** Different slots are labelled differently, and no label is "New". */
  lemma LoadLabelDistinct(a: int, b: int)
    ensures LoadLabel(a) == LoadLabel(b) ==> a == b
    ensures LoadLabel(a) != "New"
  {
    if LoadLabel(a) == LoadLabel(b) {
      assert IntToString(a) == LoadLabel(a)[5..];
      IntToStringInjective(a, b);
    }
    assert |LoadLabel(a)| > 5;
  }

  class SaveFileMenuButton {
    const SaveSlotNumber: int
    /** FileOperationsManager.Instance. */
    const manager: FileOperationsManager
    var saveExists: bool
    var awaitingConfirmation: bool
    /** The labels of the load button and of the save's date. */
    var saveText: string
    var saveData: string
    var deleteInteractable: bool
    /** The argument of the running ResetConfirmationAfterDelay coroutine, if
        one is running. */
    var confirmationCoroutine: Option<string>

    /** The button as Start leaves it: labels set from the slot's file. */
    constructor (slot: int, manager: FileOperationsManager)
      ensures SaveSlotNumber == slot && this.manager == manager
      ensures !awaitingConfirmation && confirmationCoroutine.None?
      ensures Shows(manager.DoesSaveExist(slot))
    {
      SaveSlotNumber := slot;
      this.manager := manager;
      awaitingConfirmation := false;
      confirmationCoroutine := Option.None;
      new;
      UpdateButtonState();
    }

    /** The labels and the delete button show whether the slot holds a save. */
    ghost predicate Shows(exists_: bool)
      reads this`saveExists, this`saveText, this`saveData, this`deleteInteractable, manager`Files
    {
      saveExists == exists_
      && (exists_ ==> saveText == LoadLabel(SaveSlotNumber)
                      && saveData == manager.GetSaveDate(SaveSlotNumber) && deleteInteractable)
      && (!exists_ ==> saveText == "New" && saveData == "No Save" && !deleteInteractable)
    }

    /** Reads whether the slot's file exists and sets the labels. */
    method UpdateButtonState()
      modifies this`saveExists, this`saveText, this`saveData, this`deleteInteractable
      ensures Shows(manager.DoesSaveExist(SaveSlotNumber))
    {
      saveExists := manager.DoesSaveExist(SaveSlotNumber);
      if saveExists {
        saveText := LoadLabel(SaveSlotNumber);
        saveData := manager.GetSaveDate(SaveSlotNumber);
        deleteInteractable := true;
      } else {
        saveText := "New";
        saveData := "No Save";
        deleteInteractable := false;
      }
    }

    /** Continues the saved game, or starts a new one in this slot, by the
        state seen at the last UpdateButtonState. */
    method OnLoadButtonClicked()
      modifies manager`SaveSlot, manager`SaveFilePath
      ensures manager.SaveSlot == SaveSlotNumber
      ensures saveExists ==> manager.SaveFilePath == GetSavePath(SaveSlotNumber)
      ensures !saveExists ==> manager.SaveFilePath == NewGameSaveFile
    {
      if saveExists {
        manager.LoadGame(SaveSlotNumber);
      } else {
        manager.SetUpNewGame(SaveSlotNumber);
      }
    }

    /** The first press asks for confirmation and starts the timeout; a press
        while asking deletes the save, stops the timeout and refreshes the
        labels. */
    method OnDeleteButtonClicked()
      modifies this`awaitingConfirmation, this`saveData, this`confirmationCoroutine
      modifies this`saveExists, this`saveText, this`deleteInteractable, manager`Files
      ensures old(awaitingConfirmation) ==>
                manager.Files == old(manager.Files) - {GetSavePath(SaveSlotNumber)}
                && !awaitingConfirmation && confirmationCoroutine.None? && Shows(false)
      ensures !old(awaitingConfirmation) ==>
                manager.Files == old(manager.Files) && awaitingConfirmation
                && saveData == "Press again to delete" && confirmationCoroutine == Some(old(saveData))
                && saveExists == old(saveExists) && saveText == old(saveText)
                && deleteInteractable == old(deleteInteractable)
    {
      if awaitingConfirmation {
        manager.DeleteSave(SaveSlotNumber);
        awaitingConfirmation := false;
        confirmationCoroutine := Option.None;
        UpdateButtonState();
      } else {
        awaitingConfirmation := true;
        var originalText := saveData;
        saveData := "Press again to delete";
        confirmationCoroutine := Some(originalText);
      }
    }

    /** What the coroutine does once its delay is over: withdraw the
        question and restore the label, unless the save was deleted. */
    method ResetConfirmationAfterDelay(originalText: string)
      modifies this`awaitingConfirmation, this`saveData
      ensures old(awaitingConfirmation) ==> !awaitingConfirmation && saveData == originalText
      ensures !old(awaitingConfirmation) ==> !awaitingConfirmation && saveData == old(saveData)
    {
      if awaitingConfirmation {
        awaitingConfirmation := false;
        saveData := originalText;
      }
    }

    /** The running coroutine's delay ends. */
    method ConfirmationTimeout()
      modifies this`awaitingConfirmation, this`saveData, this`confirmationCoroutine
      ensures old(confirmationCoroutine).None? ==> unchanged(this)
      ensures old(confirmationCoroutine).Some? ==>
                confirmationCoroutine.None? && !awaitingConfirmation
                && saveData == if old(awaitingConfirmation) then old(confirmationCoroutine).value else old(saveData)
    {
      if confirmationCoroutine.Some? {
        ResetConfirmationAfterDelay(confirmationCoroutine.value);
        confirmationCoroutine := Option.None;
      }
    }
  }

  /** A first press followed by the timeout deletes nothing and leaves the
      labels as they were; a first press followed by a second deletes the
      slot's save and leaves every other slot's file. */
  method DeletePressSequences(button: SaveFileMenuButton, other: int, confirm: bool)
    requires !button.awaitingConfirmation && other != button.SaveSlotNumber
    requires button.Shows(button.manager.DoesSaveExist(button.SaveSlotNumber))
    modifies button, button.manager`Files
    ensures !confirm ==> button.manager.Files == old(button.manager.Files)
                         && button.saveData == old(button.saveData) && !button.awaitingConfirmation
    ensures confirm ==> !button.manager.DoesSaveExist(button.SaveSlotNumber)
                        && button.manager.DoesSaveExist(other) == old(button.manager.DoesSaveExist(other))
                        && button.Shows(false)
  {
    button.OnDeleteButtonClicked();
    if confirm {
      button.OnDeleteButtonClicked();
      DeleteKeepsOtherSlots(old(button.manager.Files), button.SaveSlotNumber, other);
    } else {
      button.ConfirmationTimeout();
    }
  }
}
