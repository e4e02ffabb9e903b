/**
 * The "New Model" form: a list of action prompts that always keeps at
 * least one entry on screen, and a list of uploaded files restricted to a
 * fixed set of extensions. Submitting only logs the values and is not
 * modelled.
 */
module NewModelForm {
  import opened Wrappers
  import JsString

  /** A picked file, as far as the form reads it: its name. */
  datatype UploadFile = UploadFile(name: string)

  /** The form starts with one empty action. */
  const InitialActions: seq<string> := [""]

  /** The extensions `handleFileChange` lets through, compared case-sensitively. */
  const AllowedExtensions: seq<string> := [".pdf", ".txt", ".md", ".json", ".csv", ".doc", ".docx"]

  /** `list.filter((_, idx) => idx !== i)`: drops the entry at `i`, if there is one. */
  function RemoveAt<T>(s: seq<T>, i: int): (r: seq<T>)
    ensures |r| == if 0 <= i < |s| then |s| - 1 else |s|
  {
    if s == [] then []
    else if i == 0 then s[1..]
    else [s[0]] + RemoveAt(s[1..], i - 1)
  }

  /** Removing by index cuts out exactly that entry, and an index outside the list changes nothing. */
  lemma {:induction false} RemoveAtCutsOut<T>(s: seq<T>, i: int)
    ensures 0 <= i < |s| ==> RemoveAt(s, i) == s[..i] + s[i + 1..]
    ensures !(0 <= i < |s|) ==> RemoveAt(s, i) == s
  {
    if s != [] && i != 0 {
      RemoveAtCutsOut(s[1..], i - 1);
      if 0 <= i < |s| {
        assert s[1..][..i - 1] == s[1..i];
        assert s[1..][i..] == s[i + 1..];
        assert [s[0]] + s[1..i] == s[..i];
      } else {
        assert [s[0]] + s[1..] == s;
      }
    }
  }

  /** Adding a blank action and then removing it restores the list. */
  lemma AddThenRemoveRestores(actions: seq<string>)
    ensures RemoveAt(actions + [""], |actions|) == actions
  {
    RemoveAtCutsOut(actions + [""], |actions|);
    assert (actions + [""])[..|actions|] == actions;
  }

  /** Every allowed extension is a dot and at least two more characters, the last a lower-case letter. */
  lemma ExtensionsAreDotted()
    ensures forall k :: 0 <= k < |AllowedExtensions| ==> |AllowedExtensions[k]| >= 3 && AllowedExtensions[k][0] == '.'
    ensures forall k :: 0 <= k < |AllowedExtensions| ==> 'a' <= AllowedExtensions[k][|AllowedExtensions[k]| - 1] <= 'z'
  {
  }

  /** `allowed.some((ext) => name.endsWith(ext))` */
  predicate HasAllowedExtension(name: string): (ok: bool)
    ensures ok ==> |name| >= 3 && '.' in name
  {
    ExtensionsAreDotted();
    exists k :: 0 <= k < |AllowedExtensions| && JsString.EndsWith(name, AllowedExtensions[k])
  }

  /** The picked files that keep their place in the list, in picking order. */
  function Accepted(picked: seq<UploadFile>): (kept: seq<UploadFile>)
    ensures |kept| <= |picked|
    ensures forall i :: 0 <= i < |kept| ==> HasAllowedExtension(kept[i].name)
  {
    if picked == [] then []
    else (if HasAllowedExtension(picked[0].name) then [picked[0]] else []) + Accepted(picked[1..])
  }

  /** A picked file is kept exactly when its name ends with an allowed extension. */
  lemma {:induction false} AcceptedMembership(picked: seq<UploadFile>, f: UploadFile)
    ensures f in Accepted(picked) <==> f in picked && HasAllowedExtension(f.name)
  {
    if picked != [] {
      AcceptedMembership(picked[1..], f);
      assert picked == [picked[0]] + picked[1..];
    }
  }

  /**
   * Filtering a list picked in two parts is filtering each part: the kept
   * files stay in picking order, repeats included.
   */
  lemma {:induction false} AcceptedAppend(a: seq<UploadFile>, b: seq<UploadFile>)
    ensures Accepted(a + b) == Accepted(a) + Accepted(b)
  {
    if a == [] {
      assert a + b == b;
    } else {
      assert (a + b)[0] == a[0];
      assert (a + b)[1..] == a[1..] + b;
      AcceptedAppend(a[1..], b);
    }
  }

  /** Markdown and JSON files are kept. */
  lemma MarkdownAndJsonAccepted(stem: string)
    ensures HasAllowedExtension(stem + ".md") && HasAllowedExtension(stem + ".json")
  {
    assert JsString.EndsWith(stem + ".md", AllowedExtensions[2]) by {
      assert (stem + ".md")[|stem|..] == ".md";
    }
    assert JsString.EndsWith(stem + ".json", AllowedExtensions[3]) by {
      assert (stem + ".json")[|stem|..] == ".json";
    }
  }

  /** The comparison is case-sensitive: an upper-case extension is dropped. */
  lemma UpperCaseExtensionRejected()
    ensures !HasAllowedExtension("REPORT.PDF")
  {
    var name := "REPORT.PDF";
    ExtensionsAreDotted();
    forall k | 0 <= k < |AllowedExtensions| ensures !JsString.EndsWith(name, AllowedExtensions[k]) {
      var ext := AllowedExtensions[k];
      if |ext| <= |name| && name[|name| - |ext|..] == ext {
        assert false;
      }
    }
  }

  /** The clicks the action list offers; "rm" is only shown while there are two or more actions. */
  datatype ActionClick = AddClick | RemoveClick(index: int) | EditAction(index: int, text: string)

  predicate Offered(actions: seq<string>, c: ActionClick) {
    match c
    case AddClick => true
    case RemoveClick(i) => |actions| > 1 && 0 <= i < |actions|
    case EditAction(i, _) => 0 <= i < |actions|
  }

  function Apply(actions: seq<string>, c: ActionClick): (r: seq<string>)
    requires Offered(actions, c)
    ensures |r| == |actions| + (if c.AddClick? then 1 else if c.RemoveClick? then -1 else 0)
    ensures |r| >= 1
  {
    match c
    case AddClick => actions + [""]
    case RemoveClick(i) => RemoveAt(actions, i)
    case EditAction(i, v) => actions[i := v]
  }

  /** The actions after a run of clicks; a click on a control not on screen has no effect. */
  function Run(actions: seq<string>, clicks: seq<ActionClick>): (r: seq<string>)
    ensures |r| <= |actions| + |clicks|
    decreases clicks
  {
    if clicks == [] then actions
    else Run(if Offered(actions, clicks[0]) then Apply(actions, clicks[0]) else actions, clicks[1..])
  }

  /** Whatever the user clicks, the form never runs out of action inputs. */
  lemma {:induction false} RunKeepsAnAction(actions: seq<string>, clicks: seq<ActionClick>)
    requires |actions| >= 1
    ensures |Run(actions, clicks)| >= 1
    decreases clicks
  {
    if clicks != [] {
      var next := if Offered(actions, clicks[0]) then Apply(actions, clicks[0]) else actions;
      if Offered(actions, clicks[0]) && clicks[0].RemoveClick? {
        RemoveAtCutsOut(actions, clicks[0].index);
      }
      assert |next| >= 1;
      RunKeepsAnAction(next, clicks[1..]);
    }
  }

  lemma FormKeepsAnAction(clicks: seq<ActionClick>)
    ensures |Run(InitialActions, clicks)| >= 1
  {
    RunKeepsAnAction(InitialActions, clicks);
  }

  /** The form's state: the action prompts and the accepted files. */
  class Form {
    var actions: seq<string>
    var files: seq<UploadFile>

    constructor ()
      ensures actions == InitialActions && files == []
    {
      actions := InitialActions;
      files := [];
    }

    /** `addAction`: appends a blank action. */
    method AddAction()
      modifies this
      ensures actions == old(actions) + [""] && files == old(files)
    {
      actions := actions + [""];
    }

    /** `removeAction`: drops the action at index `i`. */
    method RemoveAction(i: int)
      modifies this
      ensures actions == RemoveAt(old(actions), i) && files == old(files)
    {
      actions := RemoveAt(actions, i);
    }

    /** `updateAction`: copies the list, overwrites entry `i` with `v`, and stores the copy. */
    method UpdateAction(i: nat, v: string)
      requires i < |actions|
      modifies this
      ensures |actions| == |old(actions)| && actions[i] == v
      ensures forall k :: 0 <= k < |actions| && k != i ==> actions[k] == old(actions)[k]
      ensures files == old(files)
    {
      var a := new string[|actions|];
      var k := 0;
      while k < a.Length
        modifies a
        invariant 0 <= k <= a.Length
        invariant forall j :: 0 <= j < k ==> a[j] == actions[j]
      {
        a[k] := actions[k];
        k := k + 1;
      }
      a[i] := v;
      actions := a[..];
    }

    /**
     * `handleFileChange`: with no file list nothing changes; otherwise the
     * picked files with an allowed extension are appended.
     */
    method HandleFileChange(picked: Option<seq<UploadFile>>)
      modifies this
      ensures picked.None? ==> files == old(files)
      ensures picked.Some? ==> files == old(files) + Accepted(picked.value)
      ensures actions == old(actions)
    {
      if picked.None? {
        return;
      }
      files := files + Accepted(picked.value);
    }

    /** The "rm" button of file `i`. */
    method RemoveFile(i: int)
      modifies this
      ensures files == RemoveAt(old(files), i) && actions == old(actions)
    {
      files := RemoveAt(files, i);
    }
  }
}
