/** Extension loading in `setup_hook` of main.py: which files of the `cogs`
    directory become extensions, the dotted name each is loaded under, and the
    order of the outcomes. The directory listing and each load's failure are
    parameters. */
module Extensions {
  import opened Text
  import opened Tables

  const Suffix: string := ".py"
  const Package: string := "cogs."

  /** `filename.endswith('.py') and not filename.startswith('_')`. */
  predicate IsCogFile(filename: string) {
    EndsWith(filename, Suffix) && !StartsWith(filename, "_")
  }

  /** Character by character: at least three characters, the last three `.py`, and
      the first not `_`. */
  lemma IsCogFileByCharacters(filename: string)
    ensures IsCogFile(filename) <==>
      && |filename| >= 3
      && filename[|filename| - 3] == '.' && filename[|filename| - 2] == 'p' && filename[|filename| - 1] == 'y'
      && filename[0] != '_'
  {
    if |filename| >= 3 {
      var tail := filename[|filename| - 3..];
      assert tail == Suffix <==> tail[0] == '.' && tail[1] == 'p' && tail[2] == 'y';
      assert StartsWith(filename, "_") <==> filename[0] == '_' by {
        assert filename[..1] == [filename[0]];
      }
    }
  }

  /** `f"cogs.{filename[:-3]}"`. */
  function ExtensionName(filename: string): (name: string)
    requires EndsWith(filename, Suffix)
    ensures StartsWith(name, Package)
    ensures |name| == |filename| + |Package| - |Suffix|
  {
    Package + filename[..|filename| - |Suffix|]
  }

  /** The file an extension name was made from. */
  function ModuleFile(name: string): (filename: string)
    requires StartsWith(name, Package)
    ensures EndsWith(filename, Suffix)
  {
    name[|Package|..] + Suffix
  }

  /** Each selected file and its extension name determine each other, so no two
      files are loaded under the same name. */
  lemma ExtensionNameRoundTrip(filename: string)
    requires EndsWith(filename, Suffix)
    ensures ModuleFile(ExtensionName(filename)) == filename
  {
    assert filename == filename[..|filename| - |Suffix|] + Suffix;
  }

  lemma ExtensionNameInjective(f: string, g: string)
    requires EndsWith(f, Suffix) && EndsWith(g, Suffix)
    requires ExtensionName(f) == ExtensionName(g)
    ensures f == g
  {
    ExtensionNameRoundTrip(f);
    ExtensionNameRoundTrip(g);
  }

  datatype Event = Loaded(name: string) | LoadFailed(name: string, error: string) | Synced

  /** The cog files of a listing, in listing order. */
  function CogFiles(listing: seq<string>): (r: seq<string>)
    ensures forall f :: f in r <==> f in listing && IsCogFile(f)
    ensures forall k :: 0 <= k < |r| ==> EndsWith(r[k], Suffix)
  {
    var r := Filter(listing, IsCogFile);
    assert forall k :: 0 <= k < |r| ==> r[k] in r;
    r
  }

  /** The outcome of loading one file: `load(name)` is the error the load raised,
      if any. */
  function LoadEvent(filename: string, load: string -> Option<string>): Event
    requires EndsWith(filename, Suffix)
  {
    var name := ExtensionName(filename);
    if load(name).Some? then LoadFailed(name, load(name).value) else Loaded(name)
  }

  /** The outcomes of loading `files` in order. */
  function LoadEvents(files: seq<string>, load: string -> Option<string>): (r: seq<Event>)
    requires forall k :: 0 <= k < |files| ==> EndsWith(files[k], Suffix)
    ensures |r| == |files|
  {
    seq(|files|, k requires 0 <= k < |files| => LoadEvent(files[k], load))
  }

  /** One more listed file adds its outcome at the end exactly when it is a cog file. */
  lemma LoadEventsStep(listed: seq<string>, filename: string, load: string -> Option<string>)
    ensures LoadEvents(CogFiles(listed + [filename]), load)
      == LoadEvents(CogFiles(listed), load) + (if IsCogFile(filename) then [LoadEvent(filename, load)] else [])
  {
    FilterAppend(listed, filename, IsCogFile);
  }

  /** `setup_hook`: try every cog file in listing order, log the outcome of each (a
      failure does not stop the loop), then sync the command tree once. */
  method SetupHook(listing: seq<string>, load: string -> Option<string>) returns (events: seq<Event>)
    ensures |events| == |CogFiles(listing)| + 1
    ensures events[|events| - 1] == Synced
    ensures forall i :: 0 <= i < |events| - 1 ==>
      var name := ExtensionName(CogFiles(listing)[i]);
      && (load(name).None? ==> events[i] == Loaded(name))
      && (load(name).Some? ==> events[i] == LoadFailed(name, load(name).value))
  {
    events := [];
    var i := 0;
    while i < |listing|
      invariant 0 <= i <= |listing|
      invariant events == LoadEvents(CogFiles(listing[..i]), load)
    {
      var filename := listing[i];
      assert listing[..i + 1] == listing[..i] + [filename];
      LoadEventsStep(listing[..i], filename, load);
      if IsCogFile(filename) {
        var name := ExtensionName(filename);
        var outcome := load(name);
        if outcome.Some? {
          events := events + [LoadFailed(name, outcome.value)];
        } else {
          events := events + [Loaded(name)];
        }
      }
      i := i + 1;
    }
    assert listing[..i] == listing;
    events := events + [Synced];
  }
}
