// The directory of the configuration file. Every operation may fail, and is told
// whether it does; `history` holds every state of the directory that another
// process could have seen.
module ConfigFile {
  import opened Machine

  type Files = map<string, string>

  ghost predicate SameFilesExcept(a: Files, b: Files, name: string) {
    forall n :: n != name ==> Lookup(a, n) == Lookup(b, n)
  }

  // At every moment since `from` the file had its old content or all of the new one.
  ghost predicate OldOrNew(history: seq<Files>, from: nat, name: string, was: Option<string>, text: string) {
    forall k :: from <= k < |history| ==>
      Lookup(history[k], name) == was || Lookup(history[k], name) == Some(text)
  }

  // Which steps of replacing a file succeed. `regular`: the name is free or a
  // regular file, and the question could be answered. `discards`: a temporary file can
  // be removed.
  datatype Steps = Steps(
    directories: bool,
    opens: bool,
    writes: bool,
    closes: bool,
    regular: bool,
    renames: bool,
    discards: bool)

  predicate IsFilled(steps: Steps) {
    steps.opens && steps.writes && steps.closes
  }

  predicate IsReplaced(steps: Steps) {
    IsFilled(steps) && steps.regular && steps.renames
  }

  class Folder {
    var files: Files
    ghost var history: seq<Files>

    // What a failed operation leaves under the name is arbitrary.
    method Spoil(name: string)
      modifies this
      ensures SameFilesExcept(old(files), files, name) && history == old(history) + [files]
    {
      var left: Option<string> := *;
      files := Put(files, name, left);
      history := history + [files];
    }

    // Opens for writing, which empties the file.
    method Open(name: string, ok: bool)
      modifies this
      ensures SameFilesExcept(old(files), files, name) && history == old(history) + [files]
      ensures ok ==> files == old(files)[name := ""]
    {
      if ok {
        files := files[name := ""];
        history := history + [files];
      } else {
        Spoil(name);
      }
    }

    // Writes the text and flushes it.
    method Write(name: string, text: string, ok: bool)
      modifies this
      ensures SameFilesExcept(old(files), files, name) && history == old(history) + [files]
      ensures ok ==> files == old(files)[name := text]
    {
      if ok {
        files := files[name := text];
        history := history + [files];
      } else {
        Spoil(name);
      }
    }

    method Close(name: string, ok: bool)
      modifies this
      ensures SameFilesExcept(old(files), files, name) && history == old(history) + [files]
      ensures ok ==> files == old(files)
    {
      if ok {
        history := history + [files];
      } else {
        Spoil(name);
      }
    }

    // One step: the old file under the name disappears as the new one appears.
    method Rename(from: string, to: string, ok: bool)
      requires from in files && from != to
      modifies this
      ensures history == old(history) + [files]
      ensures files == if ok then (old(files) - {from})[to := old(files)[from]] else old(files)
    {
      if ok {
        files := (files - {from})[to := files[from]];
      }
      history := history + [files];
    }

    // Removes the file if it can.
    method Discard(name: string, ok: bool)
      modifies this
      ensures files == (if ok then old(files) - {name} else old(files)) && history == old(history) + [files]
    {
      if ok {
        files := files - {name};
      }
      history := history + [files];
    }

    // Writes under a temporary name and renames. If a step fails, only the temporary
    // name may have changed, and it is free if it can be; if all succeed, only the file, and the temporary name is
    // free. At every moment the file has its old content or all of the new one.
    method Replace(name: string, temporary: string, text: string, steps: Steps) returns (ok: bool)
      requires name != temporary
      modifies this
      ensures ok == IsReplaced(steps)
      ensures !ok ==> SameFilesExcept(old(files), files, temporary) && (steps.discards ==> temporary !in files)
      ensures ok ==> files == (old(files) - {temporary})[name := text]
      ensures |old(history)| <= |history| && history[..|old(history)|] == old(history)
      ensures OldOrNew(history, |old(history)|, name, old(Lookup(files, name)), text)
    {
      ok := Fill(temporary, text, steps);
      if ok {
        ok := steps.regular;
      }
      if ok {
        Rename(temporary, name, steps.renames);
        ok := steps.renames;
      }
      if !ok {
        Discard(temporary, steps.discards);
      }
    }

    method Fill(temporary: string, text: string, steps: Steps) returns (ok: bool)
      modifies this
      ensures ok == IsFilled(steps)
      ensures SameFilesExcept(old(files), files, temporary)
      ensures ok ==> files == old(files)[temporary := text]
      ensures |old(history)| <= |history| && history[..|old(history)|] == old(history)
      ensures forall k :: |old(history)| <= k < |history| ==> SameFilesExcept(old(files), history[k], temporary)
    {
      Open(temporary, steps.opens);
      if !steps.opens {
        return false;
      }
      Write(temporary, text, steps.writes);
      if !steps.writes {
        return false;
      }
      Close(temporary, steps.closes);
      ok := steps.closes;
    }
  }
}
