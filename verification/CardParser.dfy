// Separating the fields of ISO/IEC 7813 track 1 format B and of track 2
// (CSoMsr::ParsingCardData in opos/OposLpu230/SoMsr.cpp). Text is the sequence of its
// character codes.
module CardParser {
  import opened Bytes
  import opened Sequences

  const FORMAT_B: byte := 'B' as int
  const CARET: byte := '^' as int
  const EQUALS: byte := '=' as int
  const SLASH: byte := '/' as int
  const FIVE: byte := '5' as int

  const MAX_PAN := 20
  const COUNTRY_SIZE := 3
  const EXPIRY_SIZE := 4
  const BEFORE_DISCRETIONARY := 7

  datatype Name = Name(surname: Text, firstName: Text, middle: Text, title: Text)
  datatype Track1Fields = Track1Fields(name: Name, discretionary: Text)
  datatype Track2Fields = Track2Fields(account: Text, expiry: Text, service: Text, discretionary: Text)

  const NO_NAME := Name([], [], [], [])
  const NO_TRACK1 := Track1Fields(NO_NAME, [])
  const NO_TRACK2 := Track2Fields([], [], [], [])

  // ----- What the fields of a track are -----

  function Drop(s: Text, n: int): Text { if n <= 0 then s else if |s| < n then [] else s[n..] }

  function Take(s: Text, n: nat): Text { if |s| < n then s else s[..n] }

  function Without(s: Text, c: byte): Text {
    if s == [] then [] else (if s[0] == c then [] else [s[0]]) + Without(s[1..], c)
  }

  // The name parts that are still to come, each added to what has been read so far.
  function FromTitle(n: Name, s: Text): Name { n.(title := n.title + Without(s, SPACE)) }

  function FromMiddle(n: Name, s: Text): Name {
    var middle := Until(s, {SPACE, PERIOD});
    var n' := n.(middle := n.middle + middle);
    if |middle| < |s| && s[|middle|] == PERIOD then FromTitle(n', s[|middle| + 1..]) else n'
  }

  function FromFirstName(n: Name, s: Text): Name {
    FromMiddle(n.(firstName := n.firstName + Until(s, {SPACE})), After(s, {SPACE}))
  }

  function FromSurname(n: Name, s: Text): Name {
    FromFirstName(n.(surname := n.surname + Until(s, {SLASH, SPACE})), After(s, {SLASH, SPACE}))
  }

  // A country code stands before the name exactly when the PAN starts with 59.
  predicate HasCountry(s: Text) { |Until(s, {CARET})| >= 3 && s[1] == FIVE && s[2] == NINE }

  function Track1(s: Text): Track1Fields {
    if s == [] || s[0] != FORMAT_B then NO_TRACK1
    else
      var name := Until(After(s, {CARET}), {CARET});
      var rest := Until(After(After(s, {CARET}), {CARET}), {CARET});
      Track1Fields(FromSurname(NO_NAME, Drop(name, if HasCountry(s) then COUNTRY_SIZE else 0)),
                   Drop(rest, BEFORE_DISCRETIONARY))
  }

  function Track2(s: Text): Track2Fields {
    var pan, rest := Until(s, {EQUALS}), Until(After(s, {EQUALS}), {EQUALS});
    if |pan| > MAX_PAN then NO_TRACK2
    else Track2Fields(pan, Take(rest, EXPIRY_SIZE),
                      Drop(Take(rest, BEFORE_DISCRETIONARY), EXPIRY_SIZE), Drop(rest, BEFORE_DISCRETIONARY))
  }

  // ----- The two scans -----

  datatype NameMode = CountryCode | Surname | FirstName | MiddleInitial | Title | Done

  function FromMode(mode: NameMode, items: nat, n: Name, s: Text): Name {
    match mode
    case CountryCode => FromSurname(n, Drop(s, COUNTRY_SIZE - items))
    case Surname => FromSurname(n, s)
    case FirstName => FromFirstName(n, s)
    case MiddleInitial => FromMiddle(n, s)
    case Title => FromTitle(n, s)
    case Done => n
  }

  lemma ScanCons(c: byte, s: Text, stops: set<byte>)
    ensures Until([c] + s, stops) == if c in stops then [] else [c] + Until(s, stops)
    ensures After([c] + s, stops) == if c in stops then s else After(s, stops)
    ensures Without([c] + s, SPACE) == (if c == SPACE then [] else [c]) + Without(s, SPACE)
  {
    assert ([c] + s)[1..] == s;
  }

  lemma TakeOver(a: Text, c: byte, s: Text)
    ensures (a + [c]) + s == a + ([c] + s)
  {
  }

  lemma MiddleCons(n: Name, c: byte, s: Text)
    ensures c == SPACE ==> FromMiddle(n, [c] + s) == n
    ensures c == PERIOD ==> FromMiddle(n, [c] + s) == FromTitle(n, s)
    ensures c != SPACE && c != PERIOD ==> FromMiddle(n, [c] + s) == FromMiddle(n.(middle := n.middle + [c]), s)
  {
    var stops := {SPACE, PERIOD};
    ScanCons(c, s, stops);
    if c in stops {
      assert n.middle + [] == n.middle && ([c] + s)[1..] == s;
    } else {
      var m := Until(s, stops);
      TakeOver(n.middle, c, m);
      assert ([c] + s)[|m| + 1..] == s[|m|..];
      if |m| < |s| {
        assert ([c] + s)[|m| + 2..] == s[|m| + 1..];
      }
    }
  }

  // One character of the name part.
  method ScanName(mode: NameMode, items: nat, n: Name, c: byte, ghost s: Text)
    returns (mode': NameMode, items': nat, n': Name)
    requires mode.CountryCode? ==> items < COUNTRY_SIZE
    ensures mode'.CountryCode? ==> items' < COUNTRY_SIZE
    ensures FromMode(mode', items', n', s) == FromMode(mode, items, n, [c] + s)
  {
    mode', items', n' := mode, items, n;
    match mode
    case CountryCode =>
      assert Drop([c] + s, COUNTRY_SIZE - items) == Drop(s, COUNTRY_SIZE - items - 1);
      items' := items + 1;
      if items' == COUNTRY_SIZE {
        mode', items' := Surname, 0;
      }
    case Surname =>
      ScanCons(c, s, {SLASH, SPACE});
      TakeOver(n.surname, c, Until(s, {SLASH, SPACE}));
      if c != SLASH && c != SPACE {
        n', items' := n.(surname := n.surname + [c]), items + 1;
      } else {
        assert n.surname + [] == n.surname;
        mode', items' := FirstName, 0;
      }
    case FirstName =>
      ScanCons(c, s, {SPACE});
      TakeOver(n.firstName, c, Until(s, {SPACE}));
      if c != SPACE {
        n', items' := n.(firstName := n.firstName + [c]), items + 1;
      } else {
        assert n.firstName + [] == n.firstName;
        mode', items' := MiddleInitial, 0;
      }
    case MiddleInitial =>
      MiddleCons(n, c, s);
      if c != SPACE && c != PERIOD {
        n', items' := n.(middle := n.middle + [c]), items + 1;
      } else if c == PERIOD {
        mode', items' := Title, 0;
      } else {
        mode', items' := Done, 0;
      }
    case Title =>
      ScanCons(c, s, {});
      TakeOver(n.title, c, Without(s, SPACE));
      if c != SPACE {
        n', items' := n.(title := n.title + [c]), items + 1;
      } else {
        assert [] + Without(s, SPACE) == Without(s, SPACE);
      }
    case Done =>
  }

  // Where the scan of track 1 stands after j characters, for each number of carets seen.
  ghost predicate InPan(s: Text, j: nat, mode: NameMode)
    requires j <= |s|
  {
    && After(s[j..], {CARET}) == After(s, {CARET})
    && |Until(s, {CARET})| == j + |Until(s[j..], {CARET})|
    && mode == if j > 2 && s[1] == FIVE && s[2] == NINE then CountryCode else Surname
  }

  ghost predicate InName(goal: Track1Fields, rest2: Text, tail: Text, mode: NameMode, items: nat, name: Name) {
    && (mode.CountryCode? ==> items < COUNTRY_SIZE)
    && After(tail, {CARET}) == rest2
    && goal.discretionary == Drop(Until(rest2, {CARET}), BEFORE_DISCRETIONARY)
    && FromMode(mode, items, name, Until(tail, {CARET})) == goal.name
  }

  ghost predicate InRest(goal: Track1Fields, tail: Text, k: nat, name: Name, discretionary: Text) {
    && name == goal.name
    && discretionary + Drop(Until(tail, {CARET}), BEFORE_DISCRETIONARY - k) == goal.discretionary
  }

  // The local variables of the scan of track 1.
  datatype Scan1 = Scan1(separators: nat, mode: NameMode, items: nat, k: nat, name: Name, discretionary: Text)

  const SCAN_START := Scan1(0, Surname, 0, 0, NO_NAME, [])

  ghost predicate Scanned1(s: Text, j: nat, goal: Track1Fields, rest2: Text, st: Scan1)
    requires j <= |s|
  {
    && (st.separators == 0 ==> InPan(s, j, st.mode) && st.name == NO_NAME && st.items == 0)
    && (st.separators == 1 ==> InName(goal, rest2, s[j..], st.mode, st.items, st.name))
    && (st.separators <= 1 ==> st.k == 0 && st.discretionary == [])
    && (st.separators == 2 ==> InRest(goal, s[j..], st.k, st.name, st.discretionary))
    && (st.separators > 2 ==> goal == Track1Fields(st.name, st.discretionary))
  }

  lemma PanEnds(s: Text, j: nat, mode: NameMode)
    requires j < |s| && s[0] == FORMAT_B && s[j] == CARET && InPan(s, j, mode)
    ensures InName(Track1(s), After(After(s, {CARET}), {CARET}), s[j + 1..], mode, 0, NO_NAME)
  {
    assert s[j..] == [s[j]] + s[j + 1..];
    ScanCons(s[j], s[j + 1..], {CARET});
    assert After(s, {CARET}) == s[j + 1..] && |Until(s, {CARET})| == j;
  }

  lemma NameEnds(mode: NameMode, items: nat, name: Name)
    ensures FromMode(mode, items, name, []) == name
  {
    assert name.surname + [] == name.surname && name.firstName + [] == name.firstName;
    assert name.middle + [] == name.middle && name.title + [] == name.title;
  }

  lemma NamePartEnds(goal: Track1Fields, rest2: Text, tail: Text, mode: NameMode, items: nat, name: Name)
    requires InName(goal, rest2, [CARET] + tail, mode, items, name)
    ensures InRest(goal, tail, 0, name, [])
  {
    ScanCons(CARET, tail, {CARET});
    assert [] + goal.discretionary == goal.discretionary;
    NameEnds(mode, items, name);
  }

  lemma RestEnds(goal: Track1Fields, tail: Text, k: nat, name: Name, discretionary: Text)
    requires InRest(goal, [CARET] + tail, k, name, discretionary)
    ensures goal == Track1Fields(name, discretionary)
  {
    ScanCons(CARET, tail, {CARET});
    assert discretionary + [] == discretionary;
  }

  lemma PanSeen(s: Text, j: nat, mode: NameMode, mode': NameMode)
    requires j < |s| && s[j] != CARET && InPan(s, j, mode)
    requires mode' == if j == 2 && s[1] == FIVE && s[2] == NINE then CountryCode else mode
    ensures InPan(s, j + 1, mode')
  {
    assert s[j..] == [s[j]] + s[j + 1..];
    ScanCons(s[j], s[j + 1..], {CARET});
  }

  lemma NameSeen(goal: Track1Fields, rest2: Text, c: byte, tail: Text, mode: NameMode, items: nat, n: Name,
                 mode': NameMode, items': nat, n': Name)
    requires c != CARET && InName(goal, rest2, [c] + tail, mode, items, n)
    requires mode'.CountryCode? ==> items' < COUNTRY_SIZE
    requires FromMode(mode', items', n', Until(tail, {CARET})) == FromMode(mode, items, n, [c] + Until(tail, {CARET}))
    ensures InName(goal, rest2, tail, mode', items', n')
  {
    ScanCons(c, tail, {CARET});
  }

  lemma DropCons(c: byte, s: Text, n: int)
    ensures Drop([c] + s, n) == if n > 0 then Drop(s, n - 1) else [c] + s
  {
  }

  lemma RestSeen(goal: Track1Fields, c: byte, tail: Text, k: nat, name: Name, discretionary: Text)
    requires c != CARET && InRest(goal, [c] + tail, k, name, discretionary)
    ensures InRest(goal, tail, k + 1, name, if k >= BEFORE_DISCRETIONARY then discretionary + [c] else discretionary)
  {
    ScanCons(c, tail, {CARET});
    var u := Until(tail, {CARET});
    TakeOver(discretionary, c, u);
    DropCons(c, u, BEFORE_DISCRETIONARY - k);
  }

  lemma PanOnly(s: Text)
    requires s != [] && s[0] == FORMAT_B && |Until(s, {CARET})| == |s|
    ensures Track1(s) == NO_TRACK1
  {
    NoStop(s, {CARET});
    NameEnds(Surname, 0, NO_NAME);
  }

  lemma LaterEnd(s: Text, goal: Track1Fields, rest2: Text, st: Scan1)
    requires Scanned1(s, |s|, goal, rest2, st) && st.separators > 0
    ensures goal == Track1Fields(st.name, st.discretionary)
  {
    assert s[|s|..] == [];
    NameEnds(st.mode, st.items, st.name);
    assert st.discretionary + [] == st.discretionary;
  }

  lemma ScanEnd(s: Text, rest2: Text, st: Scan1)
    requires s != [] && s[0] == FORMAT_B && Scanned1(s, |s|, Track1(s), rest2, st)
    ensures Track1(s) == Track1Fields(st.name, st.discretionary)
  {
    if st.separators == 0 {
      assert s[|s|..] == [];
      PanOnly(s);
    } else {
      LaterEnd(s, Track1(s), rest2, st);
    }
  }

  lemma LaterCaret(s: Text, j: nat, goal: Track1Fields, rest2: Text, st: Scan1)
    requires j < |s| && s[j] == CARET && Scanned1(s, j, goal, rest2, st) && st.separators > 0
    ensures Scanned1(s, j + 1, goal, rest2, st.(separators := st.separators + 1))
  {
    var tail := s[j + 1..];
    assert s[j..] == [CARET] + tail;
    if st.separators == 1 {
      NamePartEnds(goal, rest2, tail, st.mode, st.items, st.name);
    } else if st.separators == 2 {
      RestEnds(goal, tail, st.k, st.name, st.discretionary);
    }
  }

  // Wherever the PAN ends, the name that is read behind it is that of `goal`.
  ghost predicate PanLeads(s: Text, goal: Track1Fields, rest2: Text) {
    forall j, mode :: 0 <= j < |s| && InPan(s, j, mode) && s[j] == CARET ==>
      InName(goal, rest2, s[j + 1..], mode, 0, NO_NAME)
  }

  lemma PanLeadsOn(s: Text)
    requires s != [] && s[0] == FORMAT_B
    ensures PanLeads(s, Track1(s), After(After(s, {CARET}), {CARET}))
  {
    forall j, mode | 0 <= j < |s| && InPan(s, j, mode) && s[j] == CARET
      ensures InName(Track1(s), After(After(s, {CARET}), {CARET}), s[j + 1..], mode, 0, NO_NAME)
    {
      PanEnds(s, j, mode);
    }
  }

  lemma CaretSeen(s: Text, j: nat, goal: Track1Fields, rest2: Text, st: Scan1)
    requires j < |s| && s[j] == CARET && PanLeads(s, goal, rest2) && Scanned1(s, j, goal, rest2, st)
    ensures Scanned1(s, j + 1, goal, rest2, st.(separators := st.separators + 1))
  {
    if st.separators > 0 {
      LaterCaret(s, j, goal, rest2, st);
    }
  }

  // A character other than the separator.
  method SeeChar(data: array<byte>, from: nat, j: nat, st: Scan1, ghost s: Text, ghost goal: Track1Fields,
                 ghost rest2: Text)
    returns (st': Scan1)
    requires j < |s| && from + |s| <= data.Length && forall i :: 0 <= i < |s| ==> s[i] == data[from + i]
    requires Scanned1(s, j, goal, rest2, st) && s[j] != CARET
    ensures Scanned1(s, j + 1, goal, rest2, st')
  {
    var c := data[from + j];
    st' := st;
    ghost var tail := s[j + 1..];
    assert s[j..] == [c] + tail;
    if st.separators == 2 {
      RestSeen(goal, c, tail, st.k, st.name, st.discretionary);
      if st.k >= BEFORE_DISCRETIONARY {
        st' := st'.(discretionary := st.discretionary + [c]);
      }
      st' := st'.(k := st.k + 1);
    } else if st.separators == 1 {
      var mode, items, name := ScanName(st.mode, st.items, st.name, c, Until(tail, {CARET}));
      NameSeen(goal, rest2, c, tail, st.mode, st.items, st.name, mode, items, name);
      st' := st'.(mode := mode, items := items, name := name);
    } else if st.separators == 0 {
      if j == 2 {
        if data[from + 1] == FIVE && data[from + 2] == NINE {
          st' := st'.(mode := CountryCode);
        }
      }
      PanSeen(s, j, st.mode, st'.mode);
    }
  }

  // The loop over the characters; `foreign` if the first is not that of format B.
  method ScanCharacters(data: array<byte>, from: nat, n: nat, ghost s: Text, ghost goal: Track1Fields,
                        ghost rest2: Text)
    returns (st: Scan1, foreign: bool)
    requires n == |s| && from + n <= data.Length && forall i :: 0 <= i < n ==> s[i] == data[from + i]
    requires n > 0 && s[0] == FORMAT_B ==> PanLeads(s, goal, rest2)
    ensures foreign <==> n > 0 && s[0] != FORMAT_B
    ensures foreign || n == 0 ==> st == SCAN_START
    ensures n > 0 && !foreign ==> Scanned1(s, n, goal, rest2, st)
  {
    st, foreign := SCAN_START, false;
    assert s[0..] == s;
    for j := 0 to n
      invariant if j > 0 then s[0] == FORMAT_B else st == SCAN_START
      invariant Scanned1(s, j, goal, rest2, st)
    {
      if j == 0 && data[from + j] != FORMAT_B {
        return st, true;
      }
      if data[from + j] != CARET {
        st := SeeChar(data, from, j, st, s, goal, rest2);
      } else {
        CaretSeen(s, j, goal, rest2, st);
        st := st.(separators := st.separators + 1);
      }
    }
  }

  method ScanTrack1(data: array<byte>, from: nat, n: nat) returns (f: Track1Fields)
    requires from + n <= data.Length
    ensures f == Track1(data[from..from + n])
  {
    ghost var s := data[from..from + n];
    ghost var rest2 := After(After(s, {CARET}), {CARET});
    if s != [] && s[0] == FORMAT_B {
      PanLeadsOn(s);
    }
    var st, foreign := ScanCharacters(data, from, n, s, Track1(s), rest2);
    if n > 0 && !foreign {
      ScanEnd(s, rest2, st);
    }
    f := Track1Fields(st.name, st.discretionary);
  }

  // The fields of track 2 that the first k characters behind the separator make.
  function Body2(rest: Text): (Text, Text, Text) {
    (Take(rest, EXPIRY_SIZE), Drop(Take(rest, BEFORE_DISCRETIONARY), EXPIRY_SIZE), Drop(rest, BEFORE_DISCRETIONARY))
  }

  lemma Body2Push(rest: Text, c: byte)
    ensures var (e, v, d) := Body2(rest);
            Body2(rest + [c]) == if |rest| < EXPIRY_SIZE then (e + [c], v, d)
                                 else if |rest| < BEFORE_DISCRETIONARY then (e, v + [c], d)
                                 else (e, v, d + [c])
  {
    var more := rest + [c];
    if |rest| < EXPIRY_SIZE {
      assert Take(more, EXPIRY_SIZE) == more && Drop(more, EXPIRY_SIZE) == [];
    } else if |rest| < BEFORE_DISCRETIONARY {
      assert more[..EXPIRY_SIZE] == rest[..EXPIRY_SIZE] && more[EXPIRY_SIZE..] == rest[EXPIRY_SIZE..] + [c];
      assert Take(more, BEFORE_DISCRETIONARY) == more && Drop(more, BEFORE_DISCRETIONARY) == [];
      assert Take(rest, BEFORE_DISCRETIONARY) == rest;
    } else {
      assert more[..BEFORE_DISCRETIONARY] == rest[..BEFORE_DISCRETIONARY];
      assert more[..EXPIRY_SIZE] == rest[..EXPIRY_SIZE];
      assert more[BEFORE_DISCRETIONARY..] == rest[BEFORE_DISCRETIONARY..] + [c];
    }
  }

  // The account number, the fields behind it, and how many characters of these were seen.
  datatype Scan2 = Scan2(separators: nat, account: Text, expiry: Text, service: Text, discretionary: Text, k: nat)

  const SCAN2_START := Scan2(0, [], [], [], [], 0)

  ghost predicate Account2(s: Text, j: nat, separators: nat, account: Text, body: Text)
    requires j <= |s|
  {
    var stops := {EQUALS};
    && |account| <= MAX_PAN
    && (separators == 0 ==> |account| == j && body == [] && After(s[j..], stops) == After(s, stops)
                            && Until(s, stops) == account + Until(s[j..], stops))
    && (separators >= 1 ==> account == Until(s, stops))
    && (separators == 1 ==> Until(After(s, stops), stops) == body + Until(s[j..], stops))
    && (separators > 1 ==> Until(After(s, stops), stops) == body)
  }

  // `body` is what was seen between the first separator and the second.
  ghost predicate Scanned2(s: Text, j: nat, st: Scan2, body: Text)
    requires j <= |s|
  {
    && Account2(s, j, st.separators, st.account, body) && |body| == st.k
    && (st.expiry, st.service, st.discretionary) == Body2(body)
  }

  lemma SeparatorSeen2(s: Text, j: nat, separators: nat, account: Text, body: Text)
    requires j < |s| && Account2(s, j, separators, account, body) && s[j] == EQUALS
    ensures Account2(s, j + 1, separators + 1, account, body)
  {
    assert s[j..] == [s[j]] + s[j + 1..];
    ScanCons(s[j], s[j + 1..], {EQUALS});
    assert account + [] == account && body + [] == body;
  }

  lemma AccountSeen2(s: Text, j: nat, account: Text)
    requires j < |s| && Account2(s, j, 0, account, []) && s[j] != EQUALS
    ensures j < MAX_PAN ==> Account2(s, j + 1, 0, account + [s[j]], [])
    ensures j >= MAX_PAN ==> |Until(s, {EQUALS})| > MAX_PAN
  {
    assert s[j..] == [s[j]] + s[j + 1..];
    ScanCons(s[j], s[j + 1..], {EQUALS});
    TakeOver(account, s[j], Until(s[j + 1..], {EQUALS}));
  }

  lemma BodySeen2(s: Text, j: nat, separators: nat, account: Text, body: Text)
    requires j < |s| && Account2(s, j, separators, account, body) && s[j] != EQUALS && separators > 0
    ensures Account2(s, j + 1, separators, account, if separators == 1 then body + [s[j]] else body)
  {
    assert s[j..] == [s[j]] + s[j + 1..];
    ScanCons(s[j], s[j + 1..], {EQUALS});
    TakeOver(body, s[j], Until(s[j + 1..], {EQUALS}));
  }

  lemma Scan2Ends(s: Text, st: Scan2, body: Text)
    requires Scanned2(s, |s|, st, body)
    ensures Track2(s) == Track2Fields(st.account, st.expiry, st.service, st.discretionary)
  {
    assert s[|s|..] == [] && st.account + [] == st.account && body + [] == body;
    assert st.separators == 0 ==> After(s, {EQUALS}) == [];
  }

  method SeeField2(c: byte, st: Scan2, ghost body: Text) returns (st': Scan2)
    requires |body| == st.k && (st.expiry, st.service, st.discretionary) == Body2(body)
    ensures st'.separators == st.separators && st'.account == st.account
    ensures st'.k == |body + [c]| && (st'.expiry, st'.service, st'.discretionary) == Body2(body + [c])
  {
    Body2Push(body, c);
    st' := st.(k := st.k + 1);
    if st.k < EXPIRY_SIZE {
      st' := st'.(expiry := st.expiry + [c]);
    } else if EXPIRY_SIZE <= st.k < BEFORE_DISCRETIONARY {
      st' := st'.(service := st.service + [c]);
    } else {
      st' := st'.(discretionary := st.discretionary + [c]);
    }
  }

  // One character of track 2; `long` if the account number has become too long.
  method SeeChar2(c: byte, j: nat, st: Scan2, ghost s: Text, ghost body: Text)
    returns (st': Scan2, long: bool, ghost body': Text)
    requires j < |s| && s[j] == c && Scanned2(s, j, st, body)
    ensures !long ==> Scanned2(s, j + 1, st', body')
    ensures long ==> |Until(s, {EQUALS})| > MAX_PAN
  {
    st', long, body' := st, false, body;
    if c == EQUALS {
      SeparatorSeen2(s, j, st.separators, st.account, body);
      st' := st'.(separators := st.separators + 1);
    } else if st.separators == 0 {
      AccountSeen2(s, j, st.account);
      if j < MAX_PAN {
        st' := st'.(account := st.account + [c]);
      } else {
        long := true;
      }
    } else {
      BodySeen2(s, j, st.separators, st.account, body);
      if st.separators == 1 {
        body' := body + [c];
        st' := SeeField2(c, st, body);
      }
    }
  }

  method ScanTrack2(data: array<byte>, from: nat, n: nat) returns (f: Track2Fields)
    requires from + n <= data.Length
    ensures f == Track2(data[from..from + n])
  {
    ghost var s, body: Text := data[from..from + n], [];
    var st := SCAN2_START;
    assert s[0..] == s;
    for j := 0 to n
      invariant Scanned2(s, j, st, body)
    {
      assert s[j] == data[from + j];
      var long;
      st, long, body := SeeChar2(data[from + j], j, st, s, body);
      if long {
        return NO_TRACK2;
      }
    }
    Scan2Ends(s, st, body);
    f := Track2Fields(st.account, st.expiry, st.service, st.discretionary);
  }

  // ----- Printing a card -----

  lemma {:induction false} WithoutShorter(s: Text, c: byte)
    ensures |Without(s, c)| <= |s| && c !in Without(s, c)
  {
    if s != [] {
      WithoutShorter(s[1..], c);
    }
  }

  lemma {:induction false} NothingDropped(s: Text, c: byte)
    ensures Without(s, c) == s <==> Free(s, {c})
  {
    if s != [] {
      NothingDropped(s[1..], c);
      assert s == [s[0]] + s[1..];
      WithoutShorter(s[1..], c);
    }
  }

  datatype Card = Card(
    pan: Text, country: Text, name: Name, expiry: Text, service: Text,
    discretionary1: Text, discretionary2: Text)

  function PrintName(n: Name): Text {
    n.surname + [SLASH] + (n.firstName + [SPACE] + (n.middle + [PERIOD] + n.title))
  }

  function Print1(c: Card): Text {
    ([FORMAT_B] + c.pan) + [CARET]
    + ((c.country + PrintName(c.name)) + [CARET] + (c.expiry + c.service + c.discretionary1))
  }

  function Print2(c: Card): Text {
    c.pan + [EQUALS] + (c.expiry + c.service + c.discretionary2)
  }

  // Each part of a name is free of what ends it.
  predicate Separable(n: Name) {
    && Free(n.surname, {SLASH, SPACE})
    && Free(n.firstName, {SPACE})
    && Free(n.middle, {SPACE, PERIOD})
    && Free(n.title, {SPACE})
  }

  predicate NameFree(n: Name, c: byte) {
    Free(n.surname, {c}) && Free(n.firstName, {c}) && Free(n.middle, {c}) && Free(n.title, {c})
  }

  predicate CleanName(n: Name) { Separable(n) && NameFree(n, CARET) }

  // The PAN and the country code are free of the separator of track 1, and the fields of fixed
  // length have it: a country code of three characters stands before the name exactly when the
  // PAN starts with 59.
  predicate Framed1(c: Card) {
    && Free(c.pan, {CARET}) && Free(c.country, {CARET})
    && |c.country| == (if |c.pan| >= 2 && c.pan[0] == FIVE && c.pan[1] == NINE then COUNTRY_SIZE else 0)
    && |c.expiry| == 4 && |c.service| == 3
  }

  lemma MiddleRoundTrip(read: Name, n: Name)
    requires read.middle == [] && read.title == [] && read.surname == n.surname && read.firstName == n.firstName
    ensures FromMiddle(read, n.middle + [PERIOD] + n.title) == n
            <==> Free(n.middle, {SPACE, PERIOD}) && Free(n.title, {SPACE})
  {
    var r3 := n.middle + [PERIOD] + n.title;
    if Free(n.middle, {SPACE, PERIOD}) {
      SplitAtStop(n.middle, PERIOD, n.title, {SPACE, PERIOD});
      NothingDropped(n.title, SPACE);
      assert r3[|n.middle| + 1..] == n.title;
    }
  }

  lemma FirstNameRoundTrip(read: Name, n: Name)
    requires read == NO_NAME.(surname := n.surname)
    ensures FromFirstName(read, n.firstName + [SPACE] + (n.middle + [PERIOD] + n.title)) == n
       <==> Free(n.firstName, {SPACE}) && Free(n.middle, {SPACE, PERIOD}) && Free(n.title, {SPACE})
  {
    if Free(n.firstName, {SPACE}) {
      SplitAtStop(n.firstName, SPACE, n.middle + [PERIOD] + n.title, {SPACE});
      MiddleRoundTrip(read.(firstName := n.firstName), n);
    }
  }

  // A name comes back exactly when each part is free of what ends it.
  lemma NameRoundTrip(n: Name)
    ensures FromSurname(NO_NAME, PrintName(n)) == n <==> Separable(n)
  {
    var behind := n.firstName + [SPACE] + (n.middle + [PERIOD] + n.title);
    assert PrintName(n) == n.surname + [SLASH] + behind;
    if Free(n.surname, {SLASH, SPACE}) {
      SplitAtStop(n.surname, SLASH, behind, {SLASH, SPACE});
      FirstNameRoundTrip(NO_NAME.(surname := n.surname), n);
    }
  }

  lemma {:induction false} RestFree(s: Text, stops: set<byte>, c: byte)
    requires Free(s, {c})
    ensures Free(After(s, stops), {c}) && Free(Without(s, SPACE), {c})
  {
    if s != [] {
      RestFree(s[1..], stops, c);
    }
  }

  lemma MiddlePartsFree(n: Name, s: Text, c: byte)
    requires NameFree(n, c) && Free(s, {c})
    ensures NameFree(FromMiddle(n, s), c)
  {
    var middle := Until(s, {SPACE, PERIOD});
    if |middle| < |s| {
      RestFree(s[|middle| + 1..], {}, c);
    }
  }

  lemma FirstPartsFree(n: Name, s: Text, c: byte)
    requires NameFree(n, c) && Free(s, {c})
    ensures NameFree(FromFirstName(n, s), c)
  {
    var part := Until(s, {SPACE});
    RestFree(s, {SPACE}, c);
    MiddlePartsFree(n.(firstName := n.firstName + part), After(s, {SPACE}), c);
  }

  // Whatever the name is read from, a character that is not there is in none of its parts.
  lemma PartsFree(s: Text, c: byte)
    requires Free(s, {c})
    ensures NameFree(FromSurname(NO_NAME, s), c)
  {
    var part := Until(s, {SLASH, SPACE});
    RestFree(s, {SLASH, SPACE}, c);
    FirstPartsFree(NO_NAME.(surname := NO_NAME.surname + part), After(s, {SLASH, SPACE}), c);
  }

  lemma {:induction false} UntilConcat(a: Text, b: Text, stops: set<byte>)
    requires Free(a, stops)
    ensures Until(a + b, stops) == a + Until(b, stops)
  {
    if a == [] {
      assert a + b == b;
    } else {
      assert (a + b)[1..] == a[1..] + b && (a + b)[0] == a[0];
      UntilConcat(a[1..], b, stops);
    }
  }

  // What is read behind the fields of fixed length.
  lemma DiscretionaryRoundTrip(fixed: Text, discretionary: Text)
    requires |fixed| == BEFORE_DISCRETIONARY
    ensures Drop(Until(fixed + discretionary, {CARET}), BEFORE_DISCRETIONARY) == discretionary
       <==> discretionary == [] || (Free(fixed, {CARET}) && Free(discretionary, {CARET}))
  {
    var u := Until(fixed + discretionary, {CARET});
    if Free(fixed, {CARET}) {
      UntilConcat(fixed, discretionary, {CARET});
      NoStop(discretionary, {CARET});
    } else {
      var i :| 0 <= i < |fixed| && fixed[i] == CARET;
      UntilStops(fixed + discretionary, {CARET}, i);
    }
  }

  lemma PrintedParts(c: Card)
    requires Framed1(c)
    ensures Until(Print1(c), {CARET}) == [FORMAT_B] + c.pan
    ensures After(Print1(c), {CARET})
         == (c.country + PrintName(c.name)) + [CARET] + (c.expiry + c.service + c.discretionary1)
  {
    var head, mid, rest := [FORMAT_B] + c.pan, c.country + PrintName(c.name), c.expiry + c.service + c.discretionary1;
    SplitAtStop(head, CARET, mid + [CARET] + rest, {CARET});
  }

  lemma PrintedFree(n: Name)
    ensures Free(PrintName(n), {CARET}) <==> NameFree(n, CARET)
  {
    var s := PrintName(n);
    var a, b, c := |n.surname| + 1, |n.surname| + |n.firstName| + 2, |n.surname| + |n.firstName| + |n.middle| + 3;
    assert s[..a - 1] == n.surname && s[a..b - 1] == n.firstName && s[b..c - 1] == n.middle && s[c..] == n.title;
    assert forall i :: 0 <= i < |n.surname| ==> n.surname[i] == s[i];
    assert forall i :: 0 <= i < |n.firstName| ==> n.firstName[i] == s[a + i];
    assert forall i :: 0 <= i < |n.middle| ==> n.middle[i] == s[b + i];
    assert forall i :: 0 <= i < |n.title| ==> n.title[i] == s[c + i];
  }

  lemma PrintedCountry(c: Card)
    requires Framed1(c)
    ensures HasCountry(Print1(c)) <==> |c.country| == COUNTRY_SIZE
  {
    assert Print1(c)[..1 + |c.pan|] == [FORMAT_B] + c.pan;
  }

  // A name without the separator of track 1 is read from all that was printed of it.
  lemma NameIsRead(c: Card)
    requires Framed1(c) && NameFree(c.name, CARET)
    ensures Track1(Print1(c)).name == FromSurname(NO_NAME, PrintName(c.name))
    ensures Track1(Print1(c)).discretionary
         == Drop(Until(c.expiry + c.service + c.discretionary1, {CARET}), BEFORE_DISCRETIONARY)
  {
    var mid, rest := c.country + PrintName(c.name), c.expiry + c.service + c.discretionary1;
    PrintedParts(c);
    PrintedCountry(c);
    PrintedFree(c.name);
    SplitAtStop(mid, CARET, rest, {CARET});
    assert Drop(mid, |c.country|) == PrintName(c.name);
  }

  lemma NameComesBack(c: Card)
    requires Framed1(c) && NameFree(c.name, CARET)
    ensures Track1(Print1(c)).name == c.name <==> CleanName(c.name)
  {
    NameIsRead(c);
    NameRoundTrip(c.name);
  }

  lemma DiscretionaryComesBack(c: Card)
    requires Framed1(c) && NameFree(c.name, CARET)
    ensures Track1(Print1(c)).discretionary == c.discretionary1
       <==> c.discretionary1 == [] || Free(c.expiry + c.service + c.discretionary1, {CARET})
  {
    NameIsRead(c);
    DiscretionaryRoundTrip(c.expiry + c.service, c.discretionary1);
  }

  // With the separator in it, no name that is read is the printed one.
  lemma NameIsCut(c: Card)
    requires Framed1(c) && !NameFree(c.name, CARET)
    ensures Track1(Print1(c)).name != c.name
  {
    PrintedCountry(c);
    var name := Until(After(Print1(c), {CARET}), {CARET});
    PartsFree(Drop(name, |c.country|), CARET);
  }

  // Name and discretionary data come back from track 1 exactly when each part of the name is free
  // of what ends it, and nothing that is read holds the separator.
  lemma Track1RoundTrip(c: Card)
    requires Framed1(c)
    ensures Track1(Print1(c)) == Track1Fields(c.name, c.discretionary1)
       <==> CleanName(c.name)
            && (c.discretionary1 == [] || Free(c.expiry + c.service + c.discretionary1, {CARET}))
  {
    if NameFree(c.name, CARET) {
      NameComesBack(c);
      DiscretionaryComesBack(c);
    } else {
      NameIsCut(c);
    }
  }

  lemma {:induction false} ShortPan(a: Text, c: byte, b: Text, stops: set<byte>)
    requires !Free(a, stops)
    ensures |Until(a + [c] + b, stops)| < |a|
  {
    if a[0] !in stops {
      assert (a + [c] + b)[1..] == a[1..] + [c] + b;
      ShortPan(a[1..], c, b, stops);
    }
  }

  // Track 2 comes back exactly when it is free of its separator and the PAN has at most 20
  // characters; with a longer one every field is empty.
  lemma Track2RoundTrip(c: Card)
    requires |c.expiry| == 4 && |c.service| == 3
    ensures Track2(Print2(c)) == Track2Fields(c.pan, c.expiry, c.service, c.discretionary2)
       <==> |c.pan| <= MAX_PAN && Free(c.pan, {EQUALS}) && Free(c.expiry + c.service + c.discretionary2, {EQUALS})
    ensures Free(c.pan, {EQUALS}) && |c.pan| > MAX_PAN ==> Track2(Print2(c)) == NO_TRACK2
  {
    var rest := c.expiry + c.service + c.discretionary2;
    NoStop(rest, {EQUALS});
    NoStop(c.pan, {EQUALS});
    if Free(c.pan, {EQUALS}) {
      SplitAtStop(c.pan, EQUALS, rest, {EQUALS});
      var u := Until(rest, {EQUALS});
      assert Drop(Take(rest, BEFORE_DISCRETIONARY), EXPIRY_SIZE) == c.service
             && Drop(rest, BEFORE_DISCRETIONARY) == c.discretionary2;
      if |u| < |rest| && |u| >= BEFORE_DISCRETIONARY {
        assert |Drop(u, BEFORE_DISCRETIONARY)| < |c.discretionary2|;
      }
    } else {
      ShortPan(c.pan, EQUALS, rest, {EQUALS});
    }
  }
}
