/**
 * The tail of `train`: the model directory's version suffix `a.b.c` is bumped
 * to `0.(b+1).0`, the new directory is created if needed, the weights are
 * written into it, and only then is the old directory removed.
 *
 * A directory name is the fixed prefix followed by the version suffix; the
 * file system is a map from directory name to the weights stored there.
 */
module Versioning {
  import opened Wrappers
  import opened Text

  /** Why the suffix could not be bumped, or why the old directory could not be removed. */
  datatype VersionError =
    | IndexError        // `split(".")[1]` on a suffix without a "."
    | ValueError        // `int(...)` on a component that is not an integer
    | FileNotFoundError // `shutil.rmtree` on a directory that is not there

  /** `"0." + str(int(suffix.split(".")[1]) + 1) + ".0"` */
  function NewVersion(suffix: string): (r: Result<string, VersionError>)
    ensures r.Ok? ==> |r.value| >= 5 && r.value[..2] == "0." && r.value[|r.value| - 2..] == ".0"
  {
    var parts := Split(suffix, ".");
    if |parts| < 2 then Err(IndexError)
    else match ParseInt(parts[1])
      case None => Err(ValueError)
      case Some(n) => Ok("0." + IntToString(n + 1) + ".0")
  }

  /** The version components as the source reads them back. */
  function Components(version: string): seq<string>
  {
    Split(version, ".")
  }

  /** The bump fails with `IndexError` exactly when the suffix has no ".". */
  lemma BumpIndexError(suffix: string)
    ensures NewVersion(suffix) == Err(IndexError) <==> !Contains(suffix, ".")
  {
    var parts := Split(suffix, ".");
    if Contains(suffix, ".") {
      var p := FindFirst(suffix, ".").value;
      assert parts == [suffix[..p]] + Split(suffix[p + 1..], ".");
    } else {
      assert FindFirst(suffix, ".").None?;
    }
  }

  /** The bump fails with `ValueError` exactly when the second component is not an integer. */
  lemma BumpValueError(suffix: string)
    ensures NewVersion(suffix) == Err(ValueError) <==>
      |Components(suffix)| >= 2 && ParseInt(Components(suffix)[1]).None?
  {
  }

  /**
   * A successful bump yields three components: the first forced to "0", the
   * second one more than the old second component, the third reset to "0".
   */
  lemma BumpShape(suffix: string)
    requires NewVersion(suffix).Ok?
    ensures var n := ParseInt(Components(suffix)[1]).value;
      Components(NewVersion(suffix).value) == ["0", IntToString(n + 1), "0"]
  {
    var n := ParseInt(Components(suffix)[1]).value;
    var mid := IntToString(n + 1);
    IntToStringChars(n + 1, '.');
    SplitThree("0", mid, "0");
    ResetDotted(mid);
  }

  /** The new minor component reads back as one more than the old one. */
  lemma BumpMinor(suffix: string)
    requires NewVersion(suffix).Ok?
    ensures |Components(NewVersion(suffix).value)| == 3
    ensures ParseInt(Components(NewVersion(suffix).value)[1]) == Some(ParseInt(Components(suffix)[1]).value + 1)
  {
    BumpShape(suffix);
    ParseIntToString(ParseInt(Components(suffix)[1]).value + 1);
  }

  lemma ResetDotted(mid: string)
    ensures "0." + mid + ".0" == "0" + "." + mid + "." + "0"
  {
    assert "0." == "0" + ".";
    assert ".0" == "." + "0";
  }

  /** A dotted version of three dot-free components splits back into them. */
  lemma SplitThree(a: string, b: string, c: string)
    requires forall i :: 0 <= i < |a| ==> a[i] != '.'
    requires forall i :: 0 <= i < |b| ==> b[i] != '.'
    requires forall i :: 0 <= i < |c| ==> c[i] != '.'
    ensures Split(a + "." + b + "." + c, ".") == [a, b, c]
  {
    var parts := [a, b, c];
    assert Join(parts, ".") == a + "." + b + "." + c by {
      assert Join(parts[2..], ".") == c;
    }
    SeparableWithout(a, ".");
    SeparableWithout(b, ".");
    NotContainsWithout(c, ".");
    SplitJoin(parts, ".");
  }

  /** The new version is never the old one, so the old directory is not the one just written. */
  lemma BumpChanges(suffix: string)
    requires NewVersion(suffix).Ok?
    ensures NewVersion(suffix).value != suffix
  {
    BumpMinor(suffix);
  }

  /** A three-component suffix whose middle component reads as `n` is bumped to `0.(n+1).0`. */
  lemma BumpThree(a: string, b: string, c: string, n: int)
    requires forall i :: 0 <= i < |a| ==> a[i] != '.'
    requires forall i :: 0 <= i < |b| ==> b[i] != '.'
    requires forall i :: 0 <= i < |c| ==> c[i] != '.'
    requires ParseInt(b) == Some(n)
    ensures NewVersion(a + "." + b + "." + c) == Ok("0." + IntToString(n + 1) + ".0")
  {
    SplitThree(a, b, c);
  }

  /** `x.b.y` becomes `0.(b+1).0`: the first component is dropped, not kept. */
  lemma BumpFirstExample()
    ensures NewVersion("0.1.0") == Ok("0.2.0")
  {
    assert ParseInt("1") == Some(1) by { ParseIntToString(1); }
    BumpThree("0", "1", "0", 1);
    assert "0.1.0" == "0" + "." + "1" + "." + "0";
    assert IntToString(2) == "2";
    assert "0." + IntToString(2) + ".0" == "0.2.0";
  }

  lemma BumpSecondExample()
    ensures NewVersion("3.9.7") == Ok("0.10.0")
  {
    assert ParseInt("9") == Some(9) by { ParseIntToString(9); }
    BumpThree("3", "9", "7", 9);
    assert "3.9.7" == "3" + "." + "9" + "." + "7";
    assert IntToString(10) == "10";
    assert "0." + IntToString(10) + ".0" == "0.10.0";
  }

  /** A suffix without "." fails with `IndexError`, a non-numeric minor component with `ValueError`. */
  lemma BumpIndexExample()
    ensures NewVersion("7") == Err(IndexError)
  {
    BumpIndexError("7");
    NotContainsWithout("7", ".");
  }

  lemma BumpValueExample()
    ensures NewVersion("0.x.0") == Err(ValueError)
  {
    SplitThree("0", "x", "0");
    assert "0.x.0" == "0" + "." + "x" + "." + "0";
  }

  /** A step on the model store, as the log records it. */
  datatype FsOp = MakeDir(dir: string) | Save(dir: string) | RemoveTree(dir: string)

  /**
   * The directory that holds the model weights. `dirs` maps each present
   * directory to the weights written in it; `history` is the sequence of
   * directory sets after each file-system step, to state the ordering.
   */
  class ModelStore<W> {
    var dirs: map<string, Option<W>>
    ghost var log: seq<FsOp>
    ghost var history: seq<set<string>>

    constructor (initial: map<string, Option<W>>)
      ensures dirs == initial && log == [] && history == [initial.Keys]
    {
      dirs := initial;
      log := [];
      history := [initial.Keys];
    }

    /**
     * Saves `weights` under the bumped version and removes the old
     * directory `prefix + suffix`. A bad suffix changes nothing; a missing
     * old directory is reported after the new one has been written.
     */
    method SaveAndReplace(prefix: string, suffix: string, weights: W) returns (r: Result<string, VersionError>)
      modifies this
      ensures NewVersion(suffix).Err? ==> r == NewVersion(suffix) && dirs == old(dirs) && log == old(log) && history == old(history)
      ensures NewVersion(suffix).Ok? ==>
        var target := prefix + NewVersion(suffix).value;
        var current := prefix + suffix;
        && target != current
        && (current in old(dirs) ==>
              r == Ok(target) && dirs == old(dirs)[target := Some(weights)] - {current})
        && (current !in old(dirs) ==>
              r == Err(FileNotFoundError) && dirs == old(dirs)[target := Some(weights)])
        && log == old(log) + (if target in old(dirs) then [] else [MakeDir(target)]) + [Save(target)] +
                  (if current in old(dirs) then [RemoveTree(current)] else [])
        && |history| > |old(history)|
        && history[..|old(history)|] == old(history)
        // Until the old directory is gone the new one is already written:
        // every intermediate state holds the old weights or the new ones.
        && (forall k :: |old(history)| <= k < |history| ==> current in history[k] || target in history[k])
        && (forall k :: |old(history)| <= k < |history| - 1 ==> current in old(dirs) ==> current in history[k])
        && target in history[|history| - 1]
    {
      var version := NewVersion(suffix);
      if version.Err? {
        return version;
      }
      BumpChanges(suffix);
      assert prefix + version.value != prefix + suffix by {
        assert (prefix + version.value)[|prefix|..] == version.value;
        assert (prefix + suffix)[|prefix|..] == suffix;
      }
      r := Replace(prefix + suffix, prefix + version.value, weights);
    }

    /**
     * The file-system steps of `SaveAndReplace` once the new directory name
     * `target` is known: create it if absent, write the weights, then remove
     * `current`.
     */
    method Replace(current: string, target: string, weights: W) returns (r: Result<string, VersionError>)
      requires target != current
      modifies this
      ensures current in old(dirs) ==> r == Ok(target) && dirs == old(dirs)[target := Some(weights)] - {current}
      ensures current !in old(dirs) ==> r == Err(FileNotFoundError) && dirs == old(dirs)[target := Some(weights)]
      ensures log == old(log) + (if target in old(dirs) then [] else [MakeDir(target)]) + [Save(target)] +
                     (if current in old(dirs) then [RemoveTree(current)] else [])
      ensures |history| > |old(history)| && history[..|old(history)|] == old(history)
      ensures forall k :: |old(history)| <= k < |history| ==> current in history[k] || target in history[k]
      ensures forall k :: |old(history)| <= k < |history| - 1 ==> current in old(dirs) ==> current in history[k]
      ensures target in history[|history| - 1]
    {
      ghost var before := history;
      ghost var keep := current in dirs;
      ghost var steps: seq<set<string>> := [];
      if target !in dirs {
        dirs := dirs[target := None];
        log := log + [MakeDir(target)];
        steps := steps + [dirs.Keys];
      }
      dirs := dirs[target := Some(weights)];
      log := log + [Save(target)];
      steps := steps + [dirs.Keys];
      if current !in dirs {
        r := Err(FileNotFoundError);
      } else {
        dirs := dirs - {current};
        log := log + [RemoveTree(current)];
        steps := steps + [dirs.Keys];
        r := Ok(target);
      }
      history := history + steps;
      HistoryExtends(before, steps, current, target, keep);
    }
  }

  /**
   * Appending file-system states that each hold `current` or `target`, with
   * `current` kept by all but the last when `keep` holds, extends the history in the way
   * `Replace` promises.
   */
  lemma HistoryExtends(before: seq<set<string>>, steps: seq<set<string>>, current: string, target: string, keep: bool)
    requires |steps| > 0 && target in steps[|steps| - 1]
    requires forall k :: 0 <= k < |steps| ==> current in steps[k] || target in steps[k]
    requires keep ==> forall k :: 0 <= k < |steps| - 1 ==> current in steps[k]
    ensures var history := before + steps;
      && |history| > |before|
      && history[..|before|] == before
      && (forall k :: |before| <= k < |history| ==> current in history[k] || target in history[k])
      && (keep ==> forall k :: |before| <= k < |history| - 1 ==> current in history[k])
      && target in history[|history| - 1]
  {
    var history := before + steps;
    assert history[..|before|] == before;
    forall k | |before| <= k < |history|
      ensures history[k] == steps[k - |before|]
    {
    }
  }

  /** Replacing the only model directory leaves exactly the new version. */
  lemma OnlyNewRemains<W>(before: map<string, Option<W>>, current: string, target: string, weights: W)
    requires before.Keys == {current} && target != current
    ensures (before[target := Some(weights)] - {current}).Keys == {target}
  {
  }
}
