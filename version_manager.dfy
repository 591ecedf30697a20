// The version dialog (`VersionManager`): the guards on adding and renaming a
// version, the rule that disables deleting the last one, and the dialog
// state its handlers update. The store's `addVersion`, `updateVersion` and
// `deleteVersion` are not part of this model; the dialog records the calls
// it makes to them, in order.
module VersionManager {
  import opened JsRuntime

  /** Why a name was turned down, or the trimmed name passed on. */
  datatype NameCheck = Accepted(name: string) | EmptyName | AlreadyExists

  /** A call the dialog makes to the store. */
  datatype StoreCall =
    | AddVersion(name: string)
    | UpdateVersion(from: string, to: string)
    | DeleteVersion(name: string)

  /** The two guards of `handleAddVersion`, in the order they are tried. */
  function CheckNewName(versions: seq<string>, input: string): NameCheck {
    var name := Trim(input);
    if name == [] then EmptyName
    else if name in versions then AlreadyExists
    else Accepted(name)
  }

  /**
   * The two guards of `handleEditVersion`: an empty name is refused, and an
   * existing name only when it is not the version being renamed.
   */
  function CheckRename(versions: seq<string>, editing: string, input: string): NameCheck {
    var name := Trim(input);
    if name == [] then EmptyName
    else if name in versions && name != editing then AlreadyExists
    else Accepted(name)
  }

  /** `disabled={versions.length === 1}` on each delete button. */
  predicate DeleteDisabled(versions: seq<string>) {
    |versions| == 1
  }

  /**
   * Adding goes through iff the name has a non-space character and its
   * trimmed form is new; the name passed on is that trimmed form, which has
   * no surrounding whitespace.
   */
  lemma CheckNewNameIff(versions: seq<string>, input: string)
    ensures CheckNewName(versions, input).Accepted? <==> !AllSpace(input) && Trim(input) !in versions
    ensures CheckNewName(versions, input) == EmptyName <==> AllSpace(input)
    ensures CheckNewName(versions, input).Accepted? ==>
      var n := CheckNewName(versions, input).name;
      n == Trim(input) && n != [] && !IsSpace(n[0]) && !IsSpace(n[|n| - 1])
  {
    TrimEmptyIffAllSpace(input);
    TrimHasNoOuterSpace(input);
  }

  /** An accepted new name keeps the version list free of duplicates. */
  lemma AddKeepsVersionsDistinct(versions: seq<string>, input: string)
    requires NoDuplicates(versions)
    requires CheckNewName(versions, input).Accepted?
    ensures NoDuplicates(versions + [CheckNewName(versions, input).name])
  {
    var r := versions + [CheckNewName(versions, input).name];
    forall i, j | 0 <= i < j < |r|
      ensures r[i] != r[j]
    {
      if j == |r| - 1 {
        assert r[i] in versions;
      }
    }
  }

  /**
   * Renaming goes through iff the name has a non-space character and its
   * trimmed form is either new or the name being edited.
   */
  lemma CheckRenameIff(versions: seq<string>, editing: string, input: string)
    ensures CheckRename(versions, editing, input).Accepted? <==>
      !AllSpace(input) && (Trim(input) !in versions || Trim(input) == editing)
    ensures CheckRename(versions, editing, input) == EmptyName <==> AllSpace(input)
    ensures CheckRename(versions, editing, input).Accepted? ==>
      CheckRename(versions, editing, input).name == Trim(input)
  {
    TrimEmptyIffAllSpace(input);
  }

  /** Renaming a version to its own name is allowed and reaches the store. */
  lemma RenameToSelfAllowed(versions: seq<string>, editing: string, input: string)
    requires editing != [] && Trim(input) == editing
    ensures CheckRename(versions, editing, input) == Accepted(editing)
  {
  }

  /** The rename guard is the add guard with the edited version taken out of the list. */
  lemma RenameIsAddWithoutSelf(versions: seq<string>, editing: string, input: string)
    ensures CheckRename(versions, editing, input) == CheckNewName(Without(versions, editing), input)
  {
  }

  /**
   * A delete button, drawn for a version `v` of a list without duplicates,
   * is enabled exactly when some other version exists, so the last version
   * cannot be deleted from the dialog.
   */
  lemma DeleteEnabledIffOtherVersion(versions: seq<string>, v: string)
    requires NoDuplicates(versions) && v in versions
    ensures !DeleteDisabled(versions) <==> exists w :: w in versions && w != v
  {
    if !DeleteDisabled(versions) {
      assert |versions| >= 2;
      assert versions[0] != versions[1];
      if versions[0] != v {
        assert versions[0] in versions;
      } else {
        assert versions[1] in versions;
      }
    } else {
      forall w | w in versions
        ensures w == v
      {
      }
    }
  }

  /** The state of the three dialogs and the calls made to the store so far. */
  class VersionDialog {
    var newVersionName: string
    var editingVersion: string
    var editVersionName: string
    var versionToDelete: string
    var isAddDialogOpen: bool
    var isEditDialogOpen: bool
    var isDeleteDialogOpen: bool
    var calls: seq<StoreCall>

    constructor()
      ensures newVersionName == "" && editingVersion == "" && editVersionName == "" && versionToDelete == ""
      ensures !isAddDialogOpen && !isEditDialogOpen && !isDeleteDialogOpen
      ensures calls == []
    {
      newVersionName := "";
      editingVersion := "";
      editVersionName := "";
      versionToDelete := "";
      isAddDialogOpen := false;
      isEditDialogOpen := false;
      isDeleteDialogOpen := false;
      calls := [];
    }

    /** The new-version input's `onChange`. */
    method SetNewVersionName(value: string)
      modifies this
      ensures newVersionName == value
      ensures editingVersion == old(editingVersion) && editVersionName == old(editVersionName)
      ensures versionToDelete == old(versionToDelete) && calls == old(calls)
      ensures isAddDialogOpen == old(isAddDialogOpen) && isEditDialogOpen == old(isEditDialogOpen)
      ensures isDeleteDialogOpen == old(isDeleteDialogOpen)
    {
      newVersionName := value;
    }

    /** The rename input's `onChange`. */
    method SetEditVersionName(value: string)
      modifies this
      ensures editVersionName == value
      ensures newVersionName == old(newVersionName) && editingVersion == old(editingVersion)
      ensures versionToDelete == old(versionToDelete) && calls == old(calls)
      ensures isAddDialogOpen == old(isAddDialogOpen) && isEditDialogOpen == old(isEditDialogOpen)
      ensures isDeleteDialogOpen == old(isDeleteDialogOpen)
    {
      editVersionName := value;
    }

    /**
     * `handleAddVersion()`: a refused name leaves everything as it was; an
     * accepted one is passed to `addVersion`, the input is cleared and the
     * dialog closes.
     */
    method HandleAddVersion(versions: seq<string>) returns (check: NameCheck)
      modifies this
      ensures check == CheckNewName(versions, old(newVersionName))
      ensures !check.Accepted? ==> unchanged(this)
      ensures check.Accepted? ==>
        && calls == old(calls) + [AddVersion(check.name)]
        && newVersionName == "" && !isAddDialogOpen
        && editingVersion == old(editingVersion) && editVersionName == old(editVersionName)
        && versionToDelete == old(versionToDelete)
        && isEditDialogOpen == old(isEditDialogOpen) && isDeleteDialogOpen == old(isDeleteDialogOpen)
    {
      check := CheckNewName(versions, newVersionName);
      if check.Accepted? {
        calls := calls + [AddVersion(check.name)];
        newVersionName := "";
        isAddDialogOpen := false;
      }
    }

    /** `openEditDialog(version)`: the rename input starts as the version's name. */
    method OpenEditDialog(version: string)
      modifies this
      ensures editingVersion == version && editVersionName == version && isEditDialogOpen
      ensures newVersionName == old(newVersionName) && versionToDelete == old(versionToDelete)
      ensures calls == old(calls)
      ensures isAddDialogOpen == old(isAddDialogOpen) && isDeleteDialogOpen == old(isDeleteDialogOpen)
    {
      editingVersion := version;
      editVersionName := version;
      isEditDialogOpen := true;
    }

    /**
     * `handleEditVersion()`: a refused name leaves everything as it was; an
     * accepted one is passed to `updateVersion` with the edited version, and
     * the dialog closes and forgets both names.
     */
    method HandleEditVersion(versions: seq<string>) returns (check: NameCheck)
      modifies this
      ensures check == CheckRename(versions, old(editingVersion), old(editVersionName))
      ensures !check.Accepted? ==> unchanged(this)
      ensures check.Accepted? ==>
        && calls == old(calls) + [UpdateVersion(old(editingVersion), check.name)]
        && !isEditDialogOpen && editingVersion == "" && editVersionName == ""
        && newVersionName == old(newVersionName) && versionToDelete == old(versionToDelete)
        && isAddDialogOpen == old(isAddDialogOpen) && isDeleteDialogOpen == old(isDeleteDialogOpen)
    {
      check := CheckRename(versions, editingVersion, editVersionName);
      if check.Accepted? {
        calls := calls + [UpdateVersion(editingVersion, check.name)];
        isEditDialogOpen := false;
        editingVersion := "";
        editVersionName := "";
      }
    }

    /** `openDeleteDialog(version)` */
    method OpenDeleteDialog(version: string)
      modifies this
      ensures versionToDelete == version && isDeleteDialogOpen
      ensures newVersionName == old(newVersionName) && editingVersion == old(editingVersion)
      ensures editVersionName == old(editVersionName) && calls == old(calls)
      ensures isAddDialogOpen == old(isAddDialogOpen) && isEditDialogOpen == old(isEditDialogOpen)
    {
      versionToDelete := version;
      isDeleteDialogOpen := true;
    }

    /**
     * `handleDeleteVersion()`: no guard of its own; whatever is selected is
     * passed to `deleteVersion`.
     */
    method HandleDeleteVersion()
      modifies this
      ensures calls == old(calls) + [DeleteVersion(old(versionToDelete))]
      ensures !isDeleteDialogOpen && versionToDelete == ""
      ensures newVersionName == old(newVersionName) && editingVersion == old(editingVersion)
      ensures editVersionName == old(editVersionName)
      ensures isAddDialogOpen == old(isAddDialogOpen) && isEditDialogOpen == old(isEditDialogOpen)
    {
      calls := calls + [DeleteVersion(versionToDelete)];
      isDeleteDialogOpen := false;
      versionToDelete := "";
    }
  }
}
