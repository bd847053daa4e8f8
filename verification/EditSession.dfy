/** The menu's edit session: typing, pasting, backspace, enter and escape on one of three text fields.
    The bytes follow, step for step, an editor that works on whole scalar values. */
module EditSession {
  import opened Common
  import opened Utf8
  import opened TextCutting

  datatype Field = NoField | Address | DisplayName | Password

  const SHORT_TEXT_CAPACITY := 64
  const TEXT_CAPACITY := 256

  function Limit(field: Field): nat {
    if field == Password then TEXT_CAPACITY - 1 else SHORT_TEXT_CAPACITY - 1
  }

  /** A window message with the text the system supplies for it. */
  datatype Message<T> =
    | Escape
    | Enter
    | Backspace
    | Paste(clipboard: seq<T>)
    | OtherKey
    | Char(code: nat, encoded: seq<T>)
    | OtherMessage

  // ---------- the editor on scalar values ----------

  datatype Session = Session(
    editing: Field, original: seq<Scalar>, address: seq<Scalar>, displayName: seq<Scalar>, password: seq<Scalar>)
  {
    function Text(): seq<Scalar> {
      match editing
      case Address => address
      case DisplayName => displayName
      case _ => password
    }

    function WithText(text: seq<Scalar>): Session {
      match editing
      case Address => this.(address := text)
      case DisplayName => this.(displayName := text)
      case _ => this.(password := text)
    }

    predicate WithinLimits() {
      && |EncodeAll(address)| <= Limit(Address)
      && |EncodeAll(displayName)| <= Limit(DisplayName)
      && |EncodeAll(password)| <= Limit(Password)
      && (editing != NoField ==> |EncodeAll(original)| <= Limit(editing))
    }
  }

  predicate IsLineControl(c: int) {
    c == 0x0D || c == 0x0A || c == 0x09
  }

  function WithoutControls(cs: seq<Scalar>): seq<Scalar> {
    if cs == [] then []
    else (if IsLineControl(cs[0]) then [] else [cs[0]]) + WithoutControls(cs[1..])
  }

  function BeginEdit(s: Session, field: Field): Session {
    var t := s.(editing := field);
    t.(original := t.Text())
  }

  function Insert(s: Session, cs: seq<Scalar>): Session {
    var size := |EncodeAll(s.Text())|;
    if size + |EncodeAll(cs)| <= Limit(s.editing) then s.WithText(s.Text() + cs) else s
  }

  function PasteInto(s: Session, clipboard: seq<Scalar>): Session {
    var size := |EncodeAll(s.Text())|;
    var pasted := WithoutControls(clipboard);
    if size < Limit(s.editing)
    then s.WithText(s.Text() + pasted[..Fit(pasted, Limit(s.editing) - size)])
    else s
  }

  predicate AcceptedBy(field: Field, cs: seq<Scalar>) {
    field != Address || (|cs| == 1 && 0x20 < cs[0] <= 0x7E)
  }

  function Step(s: Session, m: Message<Scalar>): Session {
    if s.editing == NoField then s
    else
      match m
      case Escape => s.WithText(s.original).(editing := NoField)
      case Enter => s.(editing := NoField)
      case Backspace => if s.Text() == [] then s else s.WithText(s.Text()[..|s.Text()| - 1])
      case Paste(clipboard) => PasteInto(s, clipboard)
      case Char(code, encoded) =>
        if code < 0x20 || code == 0x7F || !AcceptedBy(s.editing, encoded) then s else Insert(s, encoded)
      case _ => s
  }

  function Run(s: Session, ms: seq<Message<Scalar>>): Session {
    if ms == [] then s else Step(Run(s, ms[..|ms| - 1]), ms[|ms| - 1])
  }

  lemma PrefixIsShorter(cs: seq<Scalar>, k: nat)
    requires k <= |cs|
    ensures |EncodeAll(cs[..k])| <= |EncodeAll(cs)|
  {
    SplitAt(cs, k);
  }

  lemma BackspaceFits(s: Session)
    requires s.WithinLimits() && s.editing != NoField
    ensures Step(s, Backspace).WithinLimits()
  {
    var text := s.Text();
    if text != [] { PrefixIsShorter(text, |text| - 1); }
  }

  lemma PasteFits(s: Session, clipboard: seq<Scalar>)
    requires s.WithinLimits() && s.editing != NoField
    ensures PasteInto(s, clipboard).WithinLimits()
  {
    var size, pasted := |EncodeAll(s.Text())|, WithoutControls(clipboard);
    if size < Limit(s.editing) {
      var k := Fit(pasted, Limit(s.editing) - size);
      FitIsGreatest(pasted, Limit(s.editing) - size);
      EncodeAllConcat(s.Text(), pasted[..k]);
    }
  }

  lemma InsertFits(s: Session, cs: seq<Scalar>)
    requires s.WithinLimits() && s.editing != NoField
    ensures Insert(s, cs).WithinLimits()
  {
    EncodeAllConcat(s.Text(), cs);
  }

  lemma StepStaysWithinLimits(s: Session, m: Message<Scalar>)
    requires s.WithinLimits()
    ensures Step(s, m).WithinLimits()
  {
    if s.editing != NoField {
      match m {
        case Backspace => BackspaceFits(s);
        case Paste(clipboard) => PasteFits(s, clipboard);
        case Char(code, encoded) => InsertFits(s, encoded);
        case _ =>
      }
    }
  }

  /** Over any run the fields stay within their byte limits. */
  lemma {:induction false} RunStaysWithinLimits(s: Session, ms: seq<Message<Scalar>>)
    requires s.WithinLimits()
    ensures Run(s, ms).WithinLimits()
  {
    if ms != [] {
      RunStaysWithinLimits(s, ms[..|ms| - 1]);
      StepStaysWithinLimits(Run(s, ms[..|ms| - 1]), ms[|ms| - 1]);
    }
  }

  /** `t` differs from `s` in nothing but the text of the edited field. */
  predicate SameButEdited(s: Session, t: Session) {
    t == s.WithText(t.Text())
  }

  lemma {:induction false} OnlyTheEditedFieldChanges(s: Session, ms: seq<Message<Scalar>>)
    requires s.editing != NoField
    requires forall m :: m in ms ==> !m.Escape? && !m.Enter?
    ensures SameButEdited(s, Run(s, ms))
  {
    if ms != [] {
      var front, last := ms[..|ms| - 1], ms[|ms| - 1];
      assert last in ms && forall m :: m in front ==> m in ms;
      OnlyTheEditedFieldChanges(s, front);
    }
  }

  /** Whatever is typed, pasted or erased after `BeginEdit`, escape puts every field back. */
  lemma {:induction false} EscapeRestores(s: Session, field: Field, ms: seq<Message<Scalar>>)
    requires field != NoField
    requires forall m :: m in ms ==> !m.Escape? && !m.Enter?
    ensures var t := Step(Run(BeginEdit(s, field), ms), Escape);
            t.editing == NoField && t.address == s.address && t.displayName == s.displayName && t.password == s.password
  {
    OnlyTheEditedFieldChanges(BeginEdit(s, field), ms);
  }

  // ---------- the session on bytes ----------

  function StripControls(s: seq<Byte>): seq<Byte> {
    if s == [] then []
    else (if IsLineControl(s[0]) then [] else [s[0]]) + StripControls(s[1..])
  }

  /** Byte by byte: only CR, LF and TAB are left out. */
  lemma StripControlsIs(s: seq<Byte>, b: Byte)
    ensures StripControls([]) == []
    ensures StripControls(s + [b]) == StripControls(s) + if b == 0x0D || b == 0x0A || b == 0x09 then [] else [b]
  {
    StripConcat(s, [b]);
    assert [b][1..] == [];
  }

  lemma {:induction false} StripConcat(s: seq<Byte>, t: seq<Byte>)
    ensures StripControls(s + t) == StripControls(s) + StripControls(t)
  {
    if s == [] {
      assert s + t == t;
    } else {
      StripConcat(s[1..], t);
      assert (s + t)[1..] == s[1..] + t;
      var first := if IsLineControl(s[0]) then [] else [s[0]];
      Associates(first, StripControls(s[1..]), StripControls(t));
    }
  }

  lemma {:induction false} NothingToStrip(s: seq<Byte>)
    requires forall i :: 0 <= i < |s| ==> s[i] >= 0x80
    ensures StripControls(s) == s
  {
    if s != [] { NothingToStrip(s[1..]); }
  }

  lemma HighBytes(c: Scalar)
    requires c >= 0x80
    ensures forall i :: 0 <= i < |Encode(c)| ==> Encode(c)[i] >= 0x80
  {
    EncodeShape(c);
    forall i | 0 <= i < |Encode(c)| ensures Encode(c)[i] >= 0x80 {
      if i == 0 { LeadRange(Encode(c)[0]); } else { ContinuationRange(Encode(c)[i]); }
    }
  }

  lemma StripOneScalar(c: Scalar)
    ensures StripControls(Encode(c)) == EncodeAll(if IsLineControl(c) then [] else [c])
  {
    assert EncodeAll([c]) == Encode(c) + [];
    if c < 0x80 {
      assert Encode(c)[1..] == [];
    } else {
      HighBytes(c);
      NothingToStrip(Encode(c));
    }
  }

  /** Deleting CR, LF and TAB bytes deletes exactly those scalar values and keeps the text valid. */
  lemma {:induction false} StrippingIsByScalars(cs: seq<Scalar>)
    ensures StripControls(EncodeAll(cs)) == EncodeAll(WithoutControls(cs))
  {
    if cs != [] {
      StrippingIsByScalars(cs[1..]);
      StripConcat(Encode(cs[0]), EncodeAll(cs[1..]));
      StripOneScalar(cs[0]);
      EncodeAllConcat(if IsLineControl(cs[0]) then [] else [cs[0]], WithoutControls(cs[1..]));
    }
  }

  /** What the scalar editor makes of a byte message. */
  ghost function Decoded(m: Message<Byte>): Message<Scalar>
    requires SuppliesUtf8(m)
  {
    match m
    case Escape => Escape
    case Enter => Enter
    case Backspace => Backspace
    case Paste(clipboard) => Paste(Scalars(clipboard))
    case OtherKey => OtherKey
    case Char(code, encoded) => Char(code, Scalars(encoded))
    case OtherMessage => OtherMessage
  }

  ghost function DecodedAll(ms: seq<Message<Byte>>): seq<Message<Scalar>>
    requires forall m :: m in ms ==> SuppliesUtf8(m)
  {
    if ms == [] then []
    else
      assert ms[|ms| - 1] in ms && forall m :: m in ms[..|ms| - 1] ==> m in ms;
      DecodedAll(ms[..|ms| - 1]) + [Decoded(ms[|ms| - 1])]
  }

  /** The system's conversion from UTF-16 hands over UTF-8, or nothing when it fails. */
  ghost predicate SuppliesUtf8(m: Message<Byte>) {
    match m
    case Paste(clipboard) => IsUtf8(clipboard)
    case Char(_, encoded) => IsUtf8(encoded)
    case _ => true
  }

  lemma ScalarsOf(text: seq<Byte>, cs: seq<Scalar>)
    requires EncodeAll(cs) == text
    ensures IsUtf8(text) && Scalars(text) == cs
  {
    EncodingIsInjective(cs, Scalars(text));
  }

  /** Valid text without its last scalar value. */
  ghost function WithoutLast(text: seq<Byte>): seq<Byte>
    requires IsUtf8(text) && text != []
  {
    var cs := Scalars(text);
    EncodeAll(cs[..|cs| - 1])
  }

  lemma WithoutLastIs(cs: seq<Scalar>, c: Scalar)
    ensures IsUtf8(EncodeAll(cs + [c])) && EncodeAll(cs + [c]) != [] && WithoutLast(EncodeAll(cs + [c])) == EncodeAll(cs)
  {
    var text := EncodeAll(cs + [c]);
    assert EncodeAll([c]) == Encode(c) + [];
    EncodeAllConcat(cs, [c]);
    EncodingIsInjective(Scalars(text), cs + [c]);
    assert (cs + [c])[..|cs|] == cs;
  }

  /** The longest run of whole scalar values of the clipboard without CR, LF and TAB, within the capacity. */
  ghost function LongestOf(clipboard: seq<Byte>, capacity: nat): seq<Byte>
    requires IsUtf8(clipboard)
  {
    LongestWithin(WithoutControls(Scalars(clipboard)), capacity)
  }

  lemma LongestOfIs(clipboard: seq<Byte>, capacity: nat)
    requires IsUtf8(clipboard)
    ensures IsLongestWithin(StripControls(clipboard), capacity, LongestOf(clipboard, capacity))
  {
    var ps := WithoutControls(Scalars(clipboard));
    StrippingIsByScalars(Scalars(clipboard));
    forall ds | EncodeAll(ds) == StripControls(clipboard) ensures LongestOf(clipboard, capacity) == LongestWithin(ds, capacity) {
      EncodingIsInjective(ds, ps);
    }
  }

  class Menu {
    const address: TextField
    const displayName: TextField
    const password: TextField
    var editing: Field
    var editOriginal: seq<Byte>
    var pageOpen: bool
    var rebuildRequested: bool

    ghost predicate Valid()
      reads this`editOriginal, address, displayName, password
    {
      && address != displayName && address != password && displayName != password
      && IsUtf8(address.text) && IsUtf8(displayName.text) && IsUtf8(password.text) && IsUtf8(editOriginal)
    }

    ghost function View(): Session
      requires Valid()
      reads this`editing, this`editOriginal, address, displayName, password
    {
      Session(editing, Scalars(editOriginal), Scalars(address.text), Scalars(displayName.text), Scalars(password.text))
    }

    /** The field a reference to the edited text leads to. */
    function EditedValue(): (field: TextField)
      reads this`editing
      ensures editing == Address ==> field == address
      ensures editing == DisplayName ==> field == displayName
      ensures editing == Password ==> field == password
    {
      match editing
      case Address => address
      case DisplayName => displayName
      case _ => password
    }

    constructor (address: TextField, displayName: TextField, password: TextField)
      requires address != displayName && address != password && displayName != password
      requires IsUtf8(address.text) && IsUtf8(displayName.text) && IsUtf8(password.text)
      ensures Valid() && editing == NoField && !pageOpen
      ensures this.address == address && this.displayName == displayName && this.password == password
    {
      this.address, this.displayName, this.password := address, displayName, password;
      editing, editOriginal, pageOpen, rebuildRequested := NoField, [], false, false;
      EmptyIsValid();
    }

    method BeginEditing(field: Field)
      requires Valid()
      modifies this
      ensures Valid() && View() == BeginEdit(old(View()), field) && pageOpen == old(pageOpen)
      ensures editing == field && rebuildRequested
      ensures editOriginal ==
              if field == Address then address.text else if field == DisplayName then displayName.text else password.text
    {
      editing := field;
      editOriginal := EditedValue().text;
      rebuildRequested := true;
    }

    /** Assigns the edited text; `cs` is what it stands for. */
    method Assign(text: seq<Byte>, ghost cs: seq<Scalar>)
      requires Valid() && EncodeAll(cs) == text
      modifies EditedValue()
      ensures Valid() && View() == old(View()).WithText(cs) && EditedValue().text == text
    {
      ScalarsOf(text, cs);
      EditedValue().text := text;
    }

    /** The backspace, told in scalar values. */
    static method EraseIn(field: TextField)
      requires IsUtf8(field.text) && field.text != []
      modifies field
      ensures IsUtf8(field.text) && Scalars(old(field.text)) != []
      ensures Scalars(field.text) == Scalars(old(field.text))[..|Scalars(old(field.text))| - 1]
      ensures field.text == WithoutLast(old(field.text))
    {
      ghost var cs := Scalars(field.text);
      field.EraseLastCharacter();
      ScalarsOf(field.text, cs[..|cs| - 1]);
    }

    method EraseLast()
      requires Valid() && editing != NoField
      modifies EditedValue()
      ensures Valid() && View() == Step(old(View()), Backspace)
      ensures old(EditedValue().text) == [] ==> EditedValue().text == []
      ensures old(EditedValue().text) != [] ==> EditedValue().text == WithoutLast(old(EditedValue().text))
    {
      var field := EditedValue();
      if field.text == [] {
        ScalarsOf([], []);
      } else {
        EraseIn(field);
      }
    }

    /** Appends what fits of the clipboard; `added` is what that is. */
    method PasteClipboard(clipboard: seq<Byte>) returns (ghost added: seq<Byte>)
      requires Valid() && editing != NoField && IsUtf8(clipboard)
      modifies EditedValue()
      ensures Valid() && View() == PasteInto(old(View()), Scalars(clipboard))
      ensures EditedValue().text == old(EditedValue().text) + added
      ensures var before, limit := old(EditedValue().text), if editing == Password then 255 else 63;
              added == if |before| < limit then LongestOf(clipboard, limit - |before|) else []
    {
      var text, limit := EditedValue().text, Limit(editing);
      var pasted := StripControls(clipboard);
      ghost var before := View();
      ghost var cs, ps := before.Text(), WithoutControls(Scalars(clipboard));
      StrippingIsByScalars(Scalars(clipboard));
      added := [];
      if |text| < limit {
        var prefix := Utf8Prefix(pasted, limit - |text|);
        ghost var taken := ps[..Fit(ps, limit - |text|)];
        assert EncodeAll(ps) == pasted;
        EncodeAllConcat(cs, taken);
        Assign(text + prefix, cs + taken);
        added := prefix;
      }
    }

    /** Types a character; the address takes only printable ASCII without spaces. */
    method TypeCharacter(encoded: seq<Byte>) returns (accepted: bool)
      requires Valid() && editing != NoField && IsUtf8(encoded)
      modifies EditedValue()
      ensures Valid() && View() == if AcceptedBy(editing, Scalars(encoded))
                                   then Insert(old(View()), Scalars(encoded)) else old(View())
      ensures accepted == AcceptedBy(editing, Scalars(encoded))
      ensures accepted <==> (editing == Address ==> |encoded| == 1 && 0x20 < encoded[0] <= 0x7E)
      ensures var before, limit := old(EditedValue().text), if editing == Password then 255 else 63;
              EditedValue().text == if accepted && |before| + |encoded| <= limit then before + encoded else before
    {
      var text := EditedValue().text;
      AsciiCharacter(Scalars(encoded));
      if editing == Address && (|encoded| != 1 || encoded[0] <= 0x20 || encoded[0] > 0x7E) {
        return false;
      }
      EncodeAllConcat(Scalars(text), Scalars(encoded));
      if |text| + |encoded| <= Limit(editing) {
        Assign(text + encoded, Scalars(text) + Scalars(encoded));
      }
      accepted := true;
    }

    /** Escape: back to the text from before the edit. */
    method CancelEdit()
      requires Valid() && editing != NoField
      modifies this`editing, EditedValue()
      ensures Valid() && View() == Step(old(View()), Escape)
      ensures editing == NoField && old(EditedValue()).text == editOriginal
    {
      Assign(editOriginal, Scalars(editOriginal));
      editing := NoField;
    }

    /** Enter: the text stays as it is. */
    method CommitEdit()
      requires Valid() && editing != NoField
      modifies this`editing
      ensures Valid() && View() == Step(old(View()), Enter)
      ensures editing == NoField
    {
      editing := NoField;
    }

    /** A character message; control characters are not for the edit. */
    method OnCharacter(code: nat, encoded: seq<Byte>) returns (handled: bool, accepted: bool)
      requires Valid() && editing != NoField && IsUtf8(encoded)
      modifies EditedValue()
      ensures Valid() && View() == Step(old(View()), Char(code, Scalars(encoded)))
      ensures handled <==> code >= 0x20 && code != 0x7F
      ensures accepted <==> handled && (editing == Address ==> |encoded| == 1 && 0x20 < encoded[0] <= 0x7E)
      ensures var before, limit := old(EditedValue().text), if editing == Password then 255 else 63;
              EditedValue().text == if accepted && |before| + |encoded| <= limit then before + encoded else before
    {
      if code < 0x20 || code == 0x7F {
        return false, false;
      }
      accepted := TypeCharacter(encoded);
      handled := true;
    }

    predicate IsEditKey(m: Message<Byte>) {
      m.Escape? || m.Enter? || m.Backspace? || m.Paste?
    }

    /** The keys that edit. */
    method OnKey(m: Message<Byte>) returns (ghost added: seq<Byte>)
      requires Valid() && editing != NoField && SuppliesUtf8(m) && IsEditKey(m)
      modifies this`editing, EditedValue()
      ensures Valid() && View() == Step(old(View()), Decoded(m))
      ensures var before, after := old(EditedValue().text), old(EditedValue()).text;
              && editing == (if m.Escape? || m.Enter? then NoField else old(editing))
              && (m.Escape? ==> after == editOriginal)
              && (m.Enter? ==> after == before)
              && (m.Backspace? ==> if before == [] then after == [] else after == WithoutLast(before))
              && (m.Paste? ==>
                    var limit := if old(editing) == Password then 255 else 63;
                    && after == before + added
                    && added == if |before| < limit then LongestOf(m.clipboard, limit - |before|) else [])
    {
      added := [];
      match m {
        case Escape =>
          CancelEdit();
        case Enter =>
          CommitEdit();
        case Backspace =>
          EraseLast();
        case Paste(clipboard) =>
          added := PasteClipboard(clipboard);
      }
    }

    /** One window message; `handled` tells the caller not to pass it on. */
    method OnWindowMessage(m: Message<Byte>)
      returns (handled: bool, ghost before: seq<Byte>, ghost added: seq<Byte>, ghost after: seq<Byte>)
      requires Valid() && SuppliesUtf8(m)
      modifies this, EditedValue()
      ensures Valid() && pageOpen == old(pageOpen)
      ensures View() == if pageOpen then Step(old(View()), Decoded(m)) else old(View())
      ensures handled <==> pageOpen && old(editing) != NoField && !m.OtherMessage?
                           && (m.Char? ==> m.code >= 0x20 && m.code != 0x7F)
      ensures rebuildRequested ==
              (old(rebuildRequested)
               || (handled && !m.OtherKey?
                   && (m.Char? && old(editing) == Address ==> |m.encoded| == 1 && 0x20 < m.encoded[0] <= 0x7E)))
      // the same on the bytes of the edited field
      ensures before == old(EditedValue().text) && after == old(EditedValue()).text
      ensures editOriginal == old(editOriginal)
      ensures editing == if pageOpen && (m.Escape? || m.Enter?) then NoField else old(editing)
      ensures !pageOpen || old(editing) == NoField || m.Enter? || m.OtherKey? || m.OtherMessage? ==> after == before
      ensures pageOpen && old(editing) != NoField && m.Escape? ==> after == editOriginal
      ensures pageOpen && old(editing) != NoField && m.Backspace? ==>
                if before == [] then after == [] else after == WithoutLast(before)
      ensures pageOpen && old(editing) != NoField && m.Paste? ==>
                var limit := if old(editing) == Password then 255 else 63;
                && after == before + added
                && added == if |before| < limit then LongestOf(m.clipboard, limit - |before|) else []
      ensures pageOpen && old(editing) != NoField && m.Char? ==>
                var limit := if old(editing) == Password then 255 else 63;
                var accepted := m.code >= 0x20 && m.code != 0x7F
                                && (old(editing) == Address ==> |m.encoded| == 1 && 0x20 < m.encoded[0] <= 0x7E);
                after == if accepted && |before| + |m.encoded| <= limit then before + m.encoded else before
    {
      ghost var field := EditedValue();
      before, added, after := field.text, [], field.text;
      if !pageOpen || editing == NoField {
        return false, before, added, after;
      }
      if m.OtherMessage? {
        return false, before, added, after;
      }
      if m.OtherKey? {
        return true, before, added, after;
      }
      if m.Char? {
        var accepted;
        handled, accepted := OnCharacter(m.code, m.encoded);
        after := field.text;
        if !accepted {
          return;
        }
      } else {
        added := OnKey(m);
        after := field.text;
      }
      rebuildRequested := true;
      handled := true;
    }
  }

  /** Over any run of messages on the open page the bytes follow the scalar editor and stay valid UTF-8
      within their limits. */
  method HandleAll(menu: Menu, ms: seq<Message<Byte>>)
    requires menu.Valid() && menu.pageOpen && menu.View().WithinLimits()
    requires forall m :: m in ms ==> SuppliesUtf8(m)
    modifies menu, menu.address, menu.displayName, menu.password
    ensures menu.Valid() && menu.pageOpen && menu.View() == Run(old(menu.View()), DecodedAll(ms))
    ensures menu.View().WithinLimits()
  {
    for i := 0 to |ms|
      invariant menu.Valid() && menu.pageOpen
      invariant forall m :: m in ms[..i] ==> SuppliesUtf8(m)
      invariant menu.View() == Run(old(menu.View()), DecodedAll(ms[..i]))
    {
      assert ms[..i + 1][..i] == ms[..i] && ms[i] in ms;
      var handled;
      ghost var before, added, after;
      handled, before, added, after := menu.OnWindowMessage(ms[i]);
      RunNext(old(menu.View()), DecodedAll(ms[..i]), Decoded(ms[i]));
    }
    assert ms[..|ms|] == ms;
    RunStaysWithinLimits(old(menu.View()), DecodedAll(ms));
  }

  lemma RunNext(s: Session, ms: seq<Message<Scalar>>, m: Message<Scalar>)
    ensures Run(s, ms + [m]) == Step(Run(s, ms), m)
  {
    assert (ms + [m])[..|ms|] == ms;
  }

  /** One printable ASCII byte is one printable ASCII character. */
  lemma {:induction false} AsciiCharacter(cs: seq<Scalar>)
    ensures var s := EncodeAll(cs);
            (|s| == 1 && 0x20 < s[0] <= 0x7E) <==> (|cs| == 1 && 0x20 < cs[0] <= 0x7E)
  {
    if |cs| == 1 {
      assert EncodeAll(cs) == Encode(cs[0]) + [];
    } else if |cs| > 1 {
      assert EncodeAll(cs) == Encode(cs[0]) + (Encode(cs[1]) + EncodeAll(cs[2..])) by { assert cs[1..][1..] == cs[2..]; }
    }
  }
}
