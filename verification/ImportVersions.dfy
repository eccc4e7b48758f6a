/** What a payload resolves to: the version it asks for, the places found, and their files. */
module ImportVersions {
  import opened Ir
  import opened Decimals
  import opened Numerals
  import opened ImportPayload
  import opened ImportGrammar
  import opened ImportReading
  import opened Imports

  // ----- version texts -----

  /** Numbers joined by points, with any leading zeros. */
  ghost predicate SpellsVersion(text: string, parts: seq<nat>)
    decreases |parts|
  {
    parts != [] &&
    if |parts| == 1 then Spells(text, parts[0])
    else exists k :: 0 <= k < |text| && text[k] == '.' && Spells(text[..k], parts[0]) && SpellsVersion(text[k + 1..], parts[1..])
  }

  lemma {:induction false} SpelledOn(text: string, k: nat, n: nat, parts: seq<nat>)
    requires k < |text| && text[k] == '.' && Spells(text[..k], n) && SpellsVersion(text[k + 1..], parts)
    ensures SpellsVersion(text, [n] + parts)
  {
    hide Spells;
    assert ([n] + parts)[1..] == parts;
  }

  lemma {:induction false} OneSpelled(text: string, n: nat)
    requires Spells(text, n)
    ensures SpellsVersion(text, [n])
  {
    hide Spells;
  }

  lemma {:induction false} DigitRead(text: string, from: nat, i: nat)
    requires from <= i < |text| && AllDigits(text[from..i]) && IsDigit(text[i])
    ensures AllDigits(text[from..i + 1]) && Value(text[from..i + 1]) == 10 * Value(text[from..i]) + (text[i] as int - 48)
  {
    assert text[from..i + 1] == text[from..i] + [text[i]];
    assert text[from..i + 1][..i - from] == text[from..i];
  }

  lemma {:induction false} NothingSpelled()
    ensures AllDigits("") && Value("") == 0
  {
  }

  /** What is accepted from `i` on, the part being read having begun at `from`. */
  lemma {:induction false} AcceptedIsSpelled(text: string, from: nat, i: nat, parts: seq<nat>) returns (more: seq<nat>)
    requires from <= i <= |text| && AllDigits(text[from..i])
    requires VersionFrom(text, i, Value(text[from..i]), i > from, parts).Ok?
    ensures VersionFrom(text, i, Value(text[from..i]), i > from, parts) == Ok(parts + more)
    ensures SpellsVersion(text[from..], more)
    decreases |text| - i
  {
    hide AllDigits, Value, Spells, SpellsVersion;
    var current := Value(text[from..i]);
    if i == |text| {
      assert text[from..] == text[from..i];
      SpellsExactly(text[from..], current);
      OneSpelled(text[from..], current);
      more := [current];
    } else if text[i] == '.' {
      NothingSpelled();
      assert text[i + 1..i + 1] == "";
      var rest := AcceptedIsSpelled(text, i + 1, i + 1, parts + [current]);
      SpellsExactly(text[from..i], current);
      assert text[from..][..i - from] == text[from..i] && text[from..][i - from + 1..] == text[i + 1..];
      SpelledOn(text[from..], i - from, current, rest);
      assert parts + [current] + rest == parts + ([current] + rest);
      more := [current] + rest;
    } else {
      DigitRead(text, from, i);
      more := AcceptedIsSpelled(text, from, i + 1, parts);
    }
  }

  lemma {:induction false} DigitsTaken(text: string, from: nat, i: nat, end: nat, parts: seq<nat>)
    requires from <= i <= end <= |text| && AllDigits(text[from..end])
    ensures AllDigits(text[from..i])
    ensures VersionFrom(text, i, Value(text[from..i]), i > from, parts) == VersionFrom(text, end, Value(text[from..end]), end > from, parts)
    decreases end - i
  {
    hide Value;
    assert forall c :: c in text[from..i] ==> c in text[from..end];
    if i < end {
      assert text[from..end][i - from] == text[i];
      assert text[i] in text[from..end];
      DigitRead(text, from, i);
      DigitsTaken(text, from, i + 1, end, parts);
    }
  }

  lemma {:induction false} FirstSpelled(text: string, parts: seq<nat>) returns (k: nat)
    requires SpellsVersion(text, parts)
    ensures k <= |text| && Spells(text[..k], parts[0])
    ensures |parts| == 1 ==> k == |text|
    ensures |parts| > 1 ==> k < |text| && text[k] == '.' && SpellsVersion(text[k + 1..], parts[1..])
  {
    hide Spells;
    if |parts| == 1 {
      k := |text|;
      assert text[..k] == text;
    } else {
      k :| 0 <= k < |text| && text[k] == '.' && Spells(text[..k], parts[0]) && SpellsVersion(text[k + 1..], parts[1..]);
    }
  }

  lemma {:induction false} NumberTaken(text: string, from: nat, end: nat, n: nat, parts: seq<nat>)
    requires from <= end <= |text| && Spells(text[from..end], n)
    ensures VersionFrom(text, from, 0, false, parts) ==
            if end == |text| then Ok(parts + [n])
            else if text[end] == '.' then VersionFrom(text, end + 1, 0, false, parts + [n])
            else VersionFrom(text, end, n, true, parts)
  {
    hide AllDigits, Value, Spells;
    NothingSpelled();
    assert text[from..from] == "";
    SpellsExactly(text[from..end], n);
    assert end > from;
    DigitsTaken(text, from, from, end, parts);
  }

  lemma {:induction false} SpelledIsAccepted(text: string, from: nat, parts: seq<nat>, more: seq<nat>)
    requires from <= |text| && SpellsVersion(text[from..], more) && more != []
    ensures VersionFrom(text, from, 0, false, parts) == Ok(parts + more)
    decreases |more|
  {
    hide SpellsVersion, Spells, VersionFrom;
    var k := FirstSpelled(text[from..], more);
    assert text[from..][..k] == text[from..from + k];
    NumberTaken(text, from, from + k, more[0], parts);
    if |more| == 1 {
      assert parts + [more[0]] == parts + more;
    } else {
      assert text[from..][k + 1..] == text[from + k + 1..];
      SpelledIsAccepted(text, from + k + 1, parts + [more[0]], more[1..]);
      assert parts + [more[0]] + more[1..] == parts + more;
    }
  }

  /** A version is accepted exactly if it is one to three numbers joined by points; the errors
      tell the empty text, too many numbers, and everything else apart. */
  lemma {:induction false} VersionIsExact(text: string, parts: seq<nat>)
    ensures ParseVersion(text) == Ok(parts) <==> |parts| <= 3 && SpellsVersion(text, parts)
    ensures text == "" ==> ParseVersion(text) == Fail(EmptyVersion)
    ensures SpellsVersion(text, parts) && |parts| > 3 ==> ParseVersion(text) == Fail(VersionParts(text))
    ensures text != "" && (forall ps: seq<nat> :: !SpellsVersion(text, ps)) ==> ParseVersion(text) == Fail(BadVersion(text))
  {
    hide VersionFrom, SpellsVersion;
    assert text[0..] == text && text[0..0] == "";
    NothingSpelled();
    if SpellsVersion(text, parts) {
      SpelledIsThere(text, parts);
      SpelledIsAccepted(text, 0, [], parts);
      assert [] + parts == parts;
    }
    if text != "" && VersionFrom(text, 0, 0, false, []).Ok? {
      var more := AcceptedIsSpelled(text, 0, 0, []);
      assert [] + more == more;
    }
    FlawedVersion(text, 0, 0, false, []);
  }

  lemma {:induction false} SpelledIsThere(text: string, parts: seq<nat>)
    requires SpellsVersion(text, parts)
    ensures text != "" && parts != []
  {
    hide Value, AllDigits, Spells;
    if |parts| == 1 {
      SpellsExactly(text, parts[0]);
    }
  }

  lemma {:induction false} FlawedVersion(text: string, i: nat, current: nat, hasDigit: bool, parts: seq<nat>)
    requires i <= |text|
    ensures var r := VersionFrom(text, i, current, hasDigit, parts); r.Ok? || r == Fail(BadVersion(text))
    decreases |text| - i
  {
    if i < |text| {
      if text[i] == '.' {
        FlawedVersion(text, i + 1, 0, false, parts + [current]);
      } else if IsDigit(text[i]) {
        FlawedVersion(text, i + 1, 10 * current + (text[i] as int - 48), true, parts);
      }
    }
  }

  // ----- what entries resolve to -----

  /** The files of several places, one place after the other. */
  function Joined(files: seq<seq<string>>): seq<string> {
    if files == [] then [] else files[0] + Joined(files[1..])
  }

  /** The entry is found as asked for, under the version all others are found under if there is
      one asked for, and its files are these. */
  predicate Gives(w: World, base: string, entry: Entry, asked: Option<seq<nat>>, version: string, files: seq<string>) {
    match w.locate(base, entry, asked)
    case Fail(_) => false
    case Ok(place) => (asked.Some? ==> place.version == Some(version)) && w.collect(place.path) == Ok(files)
  }

  lemma {:induction false} EntriesGive(
    w: World, base: string, entries: seq<Entry>, asked: Option<seq<nat>>, selected: Option<string>, version: string, files: seq<seq<string>>)
    requires |files| == |entries| && forall i :: 0 <= i < |entries| ==> Gives(w, base, entries[i], asked, version, files[i])
    requires selected.None? || selected == Some(version)
    ensures ResolveEntries(w, base, entries, asked, selected) == Ok(Joined(files))
    decreases |entries|
  {
    if entries != [] {
      assert Gives(w, base, entries[0], asked, version, files[0]);
      var next := if asked.Some? then Some(version) else selected;
      assert ResolveEntry(w, base, entries[0], asked, selected) == Ok(Chosen(files[0], next));
      forall i | 0 <= i < |entries[1..]|
        ensures Gives(w, base, entries[1..][i], asked, version, files[1..][i])
      {
        assert Gives(w, base, entries[i + 1], asked, version, files[i + 1]);
      }
      EntriesGive(w, base, entries[1..], asked, next, version, files[1..]);
    }
  }

  /** Why an entry is refused when those before it were found under `version`, if it is. */
  predicate Refuses(w: World, base: string, entry: Entry, asked: Option<seq<nat>>, version: Option<string>, e: Error) {
    match w.locate(base, entry, asked)
    case Fail(why) => e == why
    case Ok(place) =>
      if asked.Some? && place.version.None? then e == NoVersion
      else if asked.Some? && version.Some? && place.version != version then e == VersionMismatch(version.value, place.version.value)
      else w.collect(place.path) == Fail(e)
  }

  lemma {:induction false} EntryRefused(
    w: World, base: string, entries: seq<Entry>, asked: Option<seq<nat>>, selected: Option<string>, version: string,
    files: seq<seq<string>>, k: nat, e: Error)
    requires k < |entries| && |files| == k && forall i :: 0 <= i < k ==> Gives(w, base, entries[i], asked, version, files[i])
    requires asked.Some? ==> selected.None? || selected == Some(version)
    requires Refuses(w, base, entries[k], asked, if asked.Some? && k == 0 then selected else Some(version), e)
    ensures ResolveEntries(w, base, entries, asked, selected) == Fail(e)
    decreases |entries|
  {
    if k > 0 {
      assert Gives(w, base, entries[0], asked, version, files[0]);
      var next := if asked.Some? then Some(version) else selected;
      assert ResolveEntry(w, base, entries[0], asked, selected) == Ok(Chosen(files[0], next));
      forall i | 0 <= i < k - 1
        ensures Gives(w, base, entries[1..][i], asked, version, files[1..][i])
      {
        assert Gives(w, base, entries[i + 1], asked, version, files[i + 1]);
      }
      EntryRefused(w, base, entries[1..], asked, next, version, files[1..], k - 1, e);
    }
  }

  // ----- what payloads resolve to -----

  /** A payload as it may be written, with a version or none. */
  predicate IsPayload(lead: seq<Sep>, groups: seq<Group>, entries: seq<Entry>, asked: Option<seq<nat>>) {
    && SepsOk(lead) && GroupsOk(groups) && AllRead(groups) && OneVersion(groups, Payload([], None))
    && entries != []
    && Gather(groups, Payload([], None)) == Payload(entries, if asked.None? then None else Some(VersionText(asked.value)))
    && (asked.Some? ==> 1 <= |asked.value| <= 3)
  }

  lemma {:induction false} PayloadResolves(w: World, base: string, lead: seq<Sep>, groups: seq<Group>, entries: seq<Entry>, asked: Option<seq<nat>>)
    requires IsPayload(lead, groups, entries, asked)
    ensures Resolve(w, base, PayloadText(lead, groups)) == ResolveEntries(w, base, entries, asked, None)
  {
    hide SepsOk, GroupsOk, AllRead, OneVersion, Gather, Read, ParseVersion, PayloadText, VersionText, ResolveEntries;
    PayloadIsRead(lead, groups);
    if asked.Some? {
      VersionIsRead(asked.value);
    }
  }

  /** A payload resolves to the files of its entries in order, each looked up under the version
      the payload asks for, or under none if it asks for none; and where a version is asked for,
      all places must have one and the same. */
  lemma {:induction false} FilesAreThoseAskedFor(
    w: World, base: string, lead: seq<Sep>, groups: seq<Group>, entries: seq<Entry>, asked: Option<seq<nat>>,
    version: string, files: seq<seq<string>>)
    requires IsPayload(lead, groups, entries, asked) && |files| == |entries|
    requires forall i :: 0 <= i < |entries| ==> Gives(w, base, entries[i], asked, version, files[i])
    ensures Resolve(w, base, PayloadText(lead, groups)) == Ok(Joined(files))
  {
    hide IsPayload, Gives, PayloadText;
    PayloadResolves(w, base, lead, groups, entries, asked);
    EntriesGive(w, base, entries, asked, None, version, files);
  }

  /** The first entry that is not found, has no version or another, or has no files, is the error. */
  lemma {:induction false} FirstRefusalIsReported(
    w: World, base: string, lead: seq<Sep>, groups: seq<Group>, entries: seq<Entry>, asked: Option<seq<nat>>,
    version: string, files: seq<seq<string>>, k: nat, e: Error)
    requires IsPayload(lead, groups, entries, asked) && k < |entries| && |files| == k
    requires forall i :: 0 <= i < k ==> Gives(w, base, entries[i], asked, version, files[i])
    requires Refuses(w, base, entries[k], asked, if k == 0 then None else Some(version), e)
    ensures Resolve(w, base, PayloadText(lead, groups)) == Fail(e)
  {
    hide IsPayload, Gives, PayloadText;
    PayloadResolves(w, base, lead, groups, entries, asked);
    if asked.None? {
      NoneBefore(w, base, entries[k], asked, version, e);
    }
    EntryRefused(w, base, entries, asked, None, version, files, k, e);
  }

  lemma {:induction false} NoneBefore(w: World, base: string, entry: Entry, asked: Option<seq<nat>>, version: string, e: Error)
    requires asked.None?
    ensures Refuses(w, base, entry, asked, None, e) <==> Refuses(w, base, entry, asked, Some(version), e)
  {
  }

  /** Every payload either resolves as above or fails as above. */
  lemma {:induction false} GivenOrRefused(w: World, base: string, entries: seq<Entry>, asked: Option<seq<nat>>, version: string, n: nat)
    returns (files: seq<seq<string>>, e: Option<Error>)
    requires n <= |entries|
    requires asked.Some? && n > 0 ==> w.locate(base, entries[0], asked).Ok? && w.locate(base, entries[0], asked).value.version == Some(version)
    ensures |files| <= n && (e.None? ==> |files| == n) && (e.Some? ==> |files| < n)
    ensures forall i :: 0 <= i < |files| ==> Gives(w, base, entries[i], asked, version, files[i])
    ensures e.Some? ==> Refuses(w, base, entries[|files|], asked, if |files| == 0 then None else Some(version), e.value)
  {
    files, e := [], None;
    if n > 0 {
      files, e := GivenOrRefused(w, base, entries, asked, version, n - 1);
      if e.None? {
        var place := w.locate(base, entries[n - 1], asked);
        if place.Ok? && (asked.Some? ==> place.value.version == Some(version)) && w.collect(place.value.path).Ok? {
          files := files + [w.collect(place.value.path).value];
        } else {
          e := Some(if place.Fail? then place.error
                    else if asked.Some? && place.value.version.None? then NoVersion
                    else if asked.Some? && place.value.version != Some(version) then VersionMismatch(version, place.value.version.value)
                    else w.collect(place.value.path).error);
        }
      }
    }
  }

  /** A payload resolves exactly if all its entries are found as asked for, under one version if
      it asks for any, and have files. */
  lemma {:induction false} ResolvesExactly(w: World, base: string, lead: seq<Sep>, groups: seq<Group>, entries: seq<Entry>, asked: Option<seq<nat>>)
    requires IsPayload(lead, groups, entries, asked)
    ensures Resolve(w, base, PayloadText(lead, groups)).Ok? <==>
            && (forall i :: 0 <= i < |entries| ==>
                  w.locate(base, entries[i], asked).Ok? && w.collect(w.locate(base, entries[i], asked).value.path).Ok?)
            && (asked.Some? ==> forall i :: 0 <= i < |entries| ==>
                  && w.locate(base, entries[i], asked).value.version.Some?
                  && w.locate(base, entries[i], asked).value.version == w.locate(base, entries[0], asked).value.version)
  {
    hide PayloadText, SepsOk, GroupsOk, AllRead, OneVersion, Gather, Resolve, ParseVersion, VersionText;
    var first := w.locate(base, entries[0], asked);
    if asked.Some? && (first.Fail? || first.value.version.None?) {
      var e := if first.Fail? then first.error else NoVersion;
      FirstRefusalIsReported(w, base, lead, groups, entries, asked, "", [], 0, e);
    } else {
      var version := if asked.Some? then first.value.version.value else "";
      var files, e := GivenOrRefused(w, base, entries, asked, version, |entries|);
      if e.None? {
        FilesAreThoseAskedFor(w, base, lead, groups, entries, asked, version, files);
        forall i | 0 <= i < |entries|
          ensures w.locate(base, entries[i], asked).Ok? && w.collect(w.locate(base, entries[i], asked).value.path).Ok?
          ensures asked.Some? ==> w.locate(base, entries[i], asked).value.version == Some(version)
        {
          assert Gives(w, base, entries[i], asked, version, files[i]);
        }
      } else {
        FirstRefusalIsReported(w, base, lead, groups, entries, asked, version, files, |files|, e.value);
        assert 0 <= |files| < |entries|;
      }
    }
  }

  /** A version that is none makes the whole payload fail. */
  lemma {:induction false} BadVersionFails(w: World, base: string, lead: seq<Sep>, groups: seq<Group>)
    requires SepsOk(lead) && GroupsOk(groups) && AllRead(groups) && OneVersion(groups, Payload([], None))
    requires var p := Gather(groups, Payload([], None));
             p.version.Some? && forall parts: seq<nat> :: |parts| <= 3 ==> !SpellsVersion(p.version.value, parts)
    ensures Resolve(w, base, PayloadText(lead, groups)).Fail?
  {
    hide SepsOk, GroupsOk, AllRead, OneVersion, Gather, Read, ParseVersion, PayloadText, ResolveEntries, SpellsVersion;
    PayloadIsRead(lead, groups);
    var text := Gather(groups, Payload([], None)).version.value;
    if ParseVersion(text).Ok? {
      VersionIsExact(text, ParseVersion(text).value);
    }
  }
}
