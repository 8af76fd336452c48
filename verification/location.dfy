/**
  Location normalisation: free text is reduced either to the label
  `Remote` or to a state abbreviation taken from a lookup table.

  The table stands for the `us.states.lookup` library call. It maps the
  text that would be looked up to the abbreviation of the state found;
  a text that is not a key is a miss (the library returning nothing or
  raising, both of which the source turns into `Remote`).
 */
module Location {
  import opened Text

  const RemoteLabel: string := "Remote"

  /** The trimmed text after the last comma; the whole trimmed text when there is no comma. */
  function LastSegment(loc: string): (r: string)
    ensures IsStripped(r)
    ensures ',' !in r
  {
    var piece := LastPiece(loc, ',');
    var r := Strip(piece);
    StripKeepsChar(piece, ',');
    r
  }

  /** The text mentions `remote` in any letter case. */
  predicate MentionsRemote(loc: string) {
    Contains(Lower(loc), "remote")
  }

  function StandardizeLocation(loc: string, states: map<string, string>): (r: string)
    ensures r == RemoteLabel || r in states.Values
    ensures loc == [] ==> r == RemoteLabel
    ensures MentionsRemote(loc) ==> r == RemoteLabel
    ensures r != RemoteLabel ==>
              loc != [] && !MentionsRemote(loc) && LastSegment(loc) in states && r == states[LastSegment(loc)]
    ensures loc != [] && !MentionsRemote(loc) && LastSegment(loc) in states ==> r == states[LastSegment(loc)]
  {
    if loc == [] then RemoteLabel
    else if MentionsRemote(loc) then RemoteLabel
    else
      var key := LastSegment(loc);
      if key in states then states[key] else RemoteLabel
  }

  /** Any spelling of `remote` anywhere in the text makes the location remote. */
  lemma RemoteAnywhere(a: string, w: string, b: string, states: map<string, string>)
    requires Lower(w) == "remote"
    ensures StandardizeLocation(a + w + b, states) == RemoteLabel
  {
    var s := a + w + b;
    LowerAppend(a + w, b);
    LowerAppend(a, w);
    var l := Lower(s);
    assert l == Lower(a) + "remote" + Lower(b);
    assert l[|a|..] == "remote" + Lower(b);
    assert StartsWith(l[|a|..], "remote");
    assert MentionsRemote(s);
  }

  /** Only the part after the last comma is looked up; what precedes it does not matter. */
  lemma LastCommaDecides(city: string, state: string, states: map<string, string>)
    requires state != [] && !MentionsRemote(city + "," + state)
    ensures LastSegment(city + "," + state) == LastSegment(state)
    ensures StandardizeLocation(city + "," + state, states) == StandardizeLocation(state, states)
  {
    assert city + "," + state == city + [','] + state;
    LastPieceAfterSeparator(city, ',', state);
    LowerAppend(city + ",", state);
    if MentionsRemote(state) {
      ContainsShift(Lower(city + ","), Lower(state), "remote");
    }
  }

  /** A match found in the tail of a text is a match in the whole text. */
  lemma ContainsShift(a: string, b: string, sub: string)
    requires Contains(b, sub)
    ensures Contains(a + b, sub)
  {
    var i :| 0 <= i <= |b| && StartsWith(b[i..], sub);
    assert (a + b)[|a| + i..] == b[i..];
  }

  /** Without a comma the whole trimmed text is the key. */
  lemma NoCommaWholeText(loc: string)
    requires ',' !in loc
    ensures LastSegment(loc) == Strip(loc)
  {
    LastPieceNoSeparator(loc, ',');
  }

  /** Surrounding blanks around the key do not change the lookup. */
  lemma SegmentIgnoresBlanks(city: string, w1: string, key: string, w2: string)
    requires AllSpace(w1) && AllSpace(w2) && IsStripped(key) && ',' !in w1 + key + w2
    ensures LastSegment(city + "," + w1 + key + w2) == key
  {
    var tail := w1 + key + w2;
    assert city + "," + w1 + key + w2 == city + [','] + tail;
    LastPieceAfterSeparator(city, ',', tail);
    LastPieceNoSeparator(tail, ',');
    StripSurrounded(w1, key, w2);
  }

  /** Text without the letter `m` in either case cannot mention `remote`. */
  lemma NoLetterM(loc: string)
    requires forall k :: 0 <= k < |loc| ==> loc[k] != 'm' && loc[k] != 'M'
    ensures !MentionsRemote(loc)
  {
    forall i | 0 <= i <= |loc| ensures !StartsWith(Lower(loc)[i..], "remote") {
      if i + 6 <= |loc| {
        assert Lower(loc)[i..][2] == LowerChar(loc[i + 2]);
      }
    }
  }

  lemma NewYorkNotRemote(loc: string)
    requires loc == "New York, NY"
    ensures !MentionsRemote(loc)
  {
    NoLetterM(loc);
  }

  lemma ExampleCityState(loc: string, states: map<string, string>)
    requires loc == "New York, NY" && "NY" in states
    ensures StandardizeLocation(loc, states) == states["NY"]
  {
    assert loc == "New York" + "," + " " + "NY" + "";
    assert IsStripped("NY");
    SegmentIgnoresBlanks("New York", " ", "NY", "");
    NewYorkNotRemote(loc);
  }

  lemma ExampleRemote(states: map<string, string>)
    ensures StandardizeLocation("Remote - US", states) == RemoteLabel
  {
    assert "Remote - US" == "" + "Remote" + " - US";
    RemoteAnywhere("", "Remote", " - US", states);
  }

  /** A one-word place name has no comma and does not mention `remote`. */
  lemma AtlantisNotRemote(loc: string)
    requires loc == "Atlantis"
    ensures !MentionsRemote(loc) && ',' !in loc
  {
    NoLetterM(loc);
  }

  lemma ExampleUnknown(loc: string, states: map<string, string>)
    requires loc == "Atlantis" && loc !in states
    ensures StandardizeLocation(loc, states) == RemoteLabel
  {
    assert loc[0] == 'A' && loc[|loc| - 1] == 's';
    StripStripped(loc);
    AtlantisNotRemote(loc);
    NoCommaWholeText(loc);
  }
}
