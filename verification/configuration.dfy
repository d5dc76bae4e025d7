/**
 The DmdDevice.ini configuration (PinMameDevice/Configuration.cs): one INI
 document shared by five sections, each an AbstractConfiguration with a
 section name and a DoWrite flag. Writing a key saves the whole document
 unless DoWrite is off.

 The document is an in-memory map from section name to key/value map; the
 file write in Configuration.Save is a counter. Doubles stay opaque: their
 type is a parameter `D`, and double.ToString and double.Parse are passed in.
 */
module Configuration {
  import opened Common
  import opened DotNetText

  /** IniData: section name to the section's keys and values. */
  type Ini = map<string, map<string, string>>

  /** The shared document and how many times Configuration.Save has written it. */
  datatype Store = Store(data: Ini, saves: nat)

  /** An AbstractConfiguration: the section it reads and writes, and whether a Set saves. */
  datatype Section = Section(name: string, doWrite: bool)

  /** What a getter throws. */
  datatype ConfigError =
    | InvalidIniValueException(message: string)
    | ArgumentNullException   // bool.Parse(null): not a FormatException, so it escapes
    | OverflowException       // int.Parse beyond 32 bits: not caught either

  const PinDmd1Name: string := "pindmd1"
  const PinDmd2Name: string := "pindmd2"
  const PinDmd3Name: string := "pindmd3"
  const Pin2DmdName: string := "pin2dmd"
  const VirtualDmdName: string := "virtualdmd"

  /** The five sections, as the Configuration constructor creates them. */
  const SectionNames: seq<string> := [VirtualDmdName, PinDmd1Name, PinDmd2Name, PinDmd3Name, Pin2DmdName]

  /** A fresh AbstractConfiguration: DoWrite starts out on. */
  function NewSection(name: string): (s: Section)
    ensures s.name == name && s.doWrite
  {
    Section(name, true)
  }

  /** The Configuration constructor, given the document read from the file (or an empty one). */
  function Load(data: Ini): (st: Store)
    ensures st.data == data && st.saves == 0
  {
    Store(data, 0)
  }

  /** Configuration.Save: write the whole document once. */
  function SaveFile(st: Store): (r: Store)
    ensures r.data == st.data && r.saves == st.saves + 1
  {
    st.(saves := st.saves + 1)
  }

  /** AbstractConfiguration.Save: turn DoWrite back on and save the document. */
  function Save(st: Store, sec: Section): (r: (Store, Section))
    ensures r.0.data == st.data && r.0.saves == st.saves + 1
    ensures r.1.name == sec.name && r.1.doWrite
  {
    (SaveFile(st), sec.(doWrite := true))
  }

  /** The keys a section holds, empty when the section is absent. */
  function KeysOf(st: Store, name: string): set<string>
  {
    if name in st.data then st.data[name].Keys else {}
  }

  /**
   The common body of the four Set overloads: create the section if it is
   missing, store the value under the key, and save if DoWrite is on.
   */
  function SetValue(st: Store, sec: Section, key: string, value: string): (r: Store)
    ensures sec.name in r.data && key in r.data[sec.name] && r.data[sec.name][key] == value
    ensures r.data.Keys == st.data.Keys + {sec.name}
    ensures KeysOf(r, sec.name) == KeysOf(st, sec.name) + {key}
    ensures forall n :: n in st.data && n != sec.name ==> r.data[n] == st.data[n]
    ensures forall k :: k in KeysOf(st, sec.name) && k != key ==> r.data[sec.name][k] == st.data[sec.name][k]
    ensures r.saves == st.saves + (if sec.doWrite then 1 else 0)
  {
    var section := if sec.name in st.data then st.data[sec.name] else map[];
    var data := st.data[sec.name := section[key := value]];
    if sec.doWrite then SaveFile(Store(data, st.saves)) else Store(data, st.saves)
  }

  /** Set(key, string). */
  function SetString(st: Store, sec: Section, key: string, value: string): (r: Store)
    ensures sec.name in r.data && key in r.data[sec.name] && r.data[sec.name][key] == value
    ensures r.data.Keys == st.data.Keys + {sec.name}
    ensures KeysOf(r, sec.name) == KeysOf(st, sec.name) + {key}
    ensures forall n :: n in st.data && n != sec.name ==> r.data[n] == st.data[n]
    ensures forall k :: k in KeysOf(st, sec.name) && k != key ==> r.data[sec.name][k] == st.data[sec.name][k]
    ensures r.saves == st.saves + (if sec.doWrite then 1 else 0)
  {
    SetValue(st, sec, key, value)
  }

  /** Set(key, bool): stores the lower-case literal. */
  function SetBoolean(st: Store, sec: Section, key: string, value: bool): (r: Store)
    ensures sec.name in r.data && key in r.data[sec.name]
    ensures r.data[sec.name][key] == (if value then "true" else "false")
    ensures r.saves == st.saves + (if sec.doWrite then 1 else 0)
  {
    SetValue(st, sec, key, if value then "true" else "false")
  }

  /** Set(key, int): stores Int32.ToString. */
  function SetInt(st: Store, sec: Section, key: string, value: int32): (r: Store)
    ensures sec.name in r.data && key in r.data[sec.name]
    ensures r.data[sec.name][key] == FormatInt32(value)
    ensures r.saves == st.saves + (if sec.doWrite then 1 else 0)
  {
    SetValue(st, sec, key, FormatInt32(value))
  }

  /** Set(key, double): stores double.ToString, given as `format`. */
  function SetDouble<D>(st: Store, sec: Section, key: string, value: D, format: D -> string): (r: Store)
    ensures sec.name in r.data && key in r.data[sec.name]
    ensures r.data[sec.name][key] == format(value)
    ensures r.saves == st.saves + (if sec.doWrite then 1 else 0)
  {
    SetValue(st, sec, key, format(value))
  }

  /** The stored text, when both the section and the key exist. */
  function Stored(st: Store, name: string, key: string): (v: Option<string>)
    ensures v.Some? <==> name in st.data && key in st.data[name]
  {
    if name in st.data && key in st.data[name] then Some(st.data[name][key]) else None
  }

  /** The message of InvalidIniValueException for a value of the wrong kind. */
  function InvalidValueMessage(value: string, key: string, name: string, expected: string): string
  {
    "Value \"" + value + "\" for \"" + key + "\" under [" + name + "] must be " + expected + "."
  }

  /** GetString: the stored text, or the fallback when the section or the key is absent. */
  function GetString(st: Store, name: string, key: string, fallback: string): (r: string)
    ensures Stored(st, name, key).Some? ==> r == Stored(st, name, key).value
    ensures Stored(st, name, key).None? ==> r == fallback
  {
    if name !in st.data || key !in st.data[name] then fallback else st.data[name][key]
  }

  /**
   GetBoolean as written: the fallback only when the section is absent; a
   missing key hands null to bool.Parse, which throws ArgumentNullException;
   a value that is not a boolean literal becomes InvalidIniValueException.
   */
  function GetBoolean(st: Store, name: string, key: string, fallback: bool): (r: Result<bool, ConfigError>)
    ensures name !in st.data ==> r == Success(fallback)
    ensures name in st.data && key !in st.data[name] ==> r == Failure(ArgumentNullException)
    ensures name in st.data && key in st.data[name] ==>
              var v := st.data[name][key];
              match ParseBoolean(Some(v))
              case Success(b) => r == Success(b)
              case Failure(_) => r == Failure(InvalidIniValueException(InvalidValueMessage(v, key, name, "either \"true\" or \"false\"")))
  {
    if name !in st.data then Success(fallback)
    else
      match ParseBoolean(Stored(st, name, key))
      case Success(b) => Success(b)
      case Failure(ArgumentNull) => Failure(ArgumentNullException)
      case Failure(_) =>
        Failure(InvalidIniValueException(InvalidValueMessage(st.data[name][key], key, name, "either \"true\" or \"false\"")))
  }

  /** GetBoolean as evidently intended: the fallback when the section or the key is absent. */
  function GetBooleanIntended(st: Store, name: string, key: string, fallback: bool): (r: Result<bool, ConfigError>)
    ensures Stored(st, name, key).None? ==> r == Success(fallback)
    ensures Stored(st, name, key).Some? ==> r == GetBoolean(st, name, key, fallback)
    ensures r != Failure(ArgumentNullException)
  {
    if name !in st.data || key !in st.data[name] then Success(fallback)
    else GetBoolean(st, name, key, fallback)
  }

  /**
   GetInt: the fallback when the section or the key is absent; otherwise
   int.Parse, whose FormatException becomes InvalidIniValueException and
   whose OverflowException escapes.
   */
  function GetInt(st: Store, name: string, key: string, fallback: int32): (r: Result<int32, ConfigError>)
    ensures Stored(st, name, key).None? ==> r == Success(fallback)
    ensures Stored(st, name, key).Some? ==>
              var v := Stored(st, name, key).value;
              match ParseInt32(v)
              case Success(n) => r == Success(n)
              case Failure(Overflow) => r == Failure(OverflowException)
              case Failure(_) => r == Failure(InvalidIniValueException(InvalidValueMessage(v, key, name, "an integer")))
  {
    if name !in st.data || key !in st.data[name] then Success(fallback)
    else
      var v := st.data[name][key];
      match ParseInt32(v)
      case Success(n) => Success(n)
      case Failure(Overflow) => Failure(OverflowException)
      case Failure(_) => Failure(InvalidIniValueException(InvalidValueMessage(v, key, name, "an integer")))
  }

  /**
   GetDouble: the fallback when the section or the key is absent; otherwise
   double.Parse, given as `parse` (None for a FormatException).
   */
  function GetDouble<D>(st: Store, name: string, key: string, fallback: D, parse: string -> Option<D>)
    : (r: Result<D, ConfigError>)
    ensures Stored(st, name, key).None? ==> r == Success(fallback)
    ensures Stored(st, name, key).Some? && parse(Stored(st, name, key).value).Some? ==>
              r == Success(parse(Stored(st, name, key).value).value)
    ensures Stored(st, name, key).Some? && parse(Stored(st, name, key).value).None? ==>
              r == Failure(InvalidIniValueException(InvalidValueMessage(Stored(st, name, key).value, key, name, "a floating number")))
  {
    if name !in st.data || key !in st.data[name] then Success(fallback)
    else
      var v := st.data[name][key];
      match parse(v)
      case Some(d) => Success(d)
      case None => Failure(InvalidIniValueException(InvalidValueMessage(v, key, name, "a floating number")))
  }

  /** The Enabled property every section has: GetBoolean("enabled", true). */
  function Enabled(st: Store, name: string): (r: Result<bool, ConfigError>)
    ensures name !in st.data ==> r == Success(true)
  {
    GetBoolean(st, name, "enabled", true)
  }

  /** PinDmd3Config.Port: GetString("port", ""). */
  function PinDmd3Port(st: Store): (r: string)
    ensures Stored(st, PinDmd3Name, "port").None? ==> r == ""
  {
    GetString(st, PinDmd3Name, "port", "")
  }

  /** VirtualDmdConfig's Left, Top, Width and Height: GetDouble with 0, 0, 1024 and 256. */
  datatype Position<D> = Position(left: D, top: D, width: D, height: D)

  /**
   What reading a present key of the virtual DMD section gives: the parsed
   double, or InvalidIniValueException naming the value, key and section.
   */
  ghost predicate ReadsStored<D>(st: Store, key: string, parse: string -> Option<D>, r: Result<D, ConfigError>)
    requires Stored(st, VirtualDmdName, key).Some?
  {
    var v := Stored(st, VirtualDmdName, key).value;
    match parse(v)
    case Some(d) => r == Success(d)
    case None => r == Failure(InvalidIniValueException(InvalidValueMessage(v, key, VirtualDmdName, "a floating number")))
  }

  function VirtualDmdPosition<D>(st: Store, zero: D, w1024: D, h256: D, parse: string -> Option<D>)
    : (r: Position<Result<D, ConfigError>>)
    ensures VirtualDmdName !in st.data ==>
              r == Position(Success(zero), Success(zero), Success(w1024), Success(h256))
    ensures Stored(st, VirtualDmdName, "left").None? ==> r.left == Success(zero)
    ensures Stored(st, VirtualDmdName, "top").None? ==> r.top == Success(zero)
    ensures Stored(st, VirtualDmdName, "width").None? ==> r.width == Success(w1024)
    ensures Stored(st, VirtualDmdName, "height").None? ==> r.height == Success(h256)
    ensures Stored(st, VirtualDmdName, "left").Some? ==> ReadsStored(st, "left", parse, r.left)
    ensures Stored(st, VirtualDmdName, "top").Some? ==> ReadsStored(st, "top", parse, r.top)
    ensures Stored(st, VirtualDmdName, "width").Some? ==> ReadsStored(st, "width", parse, r.width)
    ensures Stored(st, VirtualDmdName, "height").Some? ==> ReadsStored(st, "height", parse, r.height)
  {
    Position(GetDouble(st, VirtualDmdName, "left", zero, parse),
             GetDouble(st, VirtualDmdName, "top", zero, parse),
             GetDouble(st, VirtualDmdName, "width", w1024, parse),
             GetDouble(st, VirtualDmdName, "height", h256, parse))
  }

  /**
   VirtualDmdConfig.SetPosition: DoWrite off, four Sets, then Save, which
   turns DoWrite back on. Whatever DoWrite was before does not matter.
   */
  function SetPosition<D>(st: Store, vdmd: Section, position: Position<D>, format: D -> string)
    : (r: (Store, Section))
    requires vdmd.name == VirtualDmdName
    ensures r.0.saves == st.saves + 1
    ensures r.1 == Section(VirtualDmdName, true)
    ensures VirtualDmdName in r.0.data
    ensures var s := r.0.data[VirtualDmdName];
            && "left" in s && s["left"] == format(position.left)
            && "top" in s && s["top"] == format(position.top)
            && "width" in s && s["width"] == format(position.width)
            && "height" in s && s["height"] == format(position.height)
    ensures r.0.data.Keys == st.data.Keys + {VirtualDmdName}
    ensures forall n :: n in st.data && n != VirtualDmdName ==> r.0.data[n] == st.data[n]
    ensures KeysOf(r.0, VirtualDmdName) == KeysOf(st, VirtualDmdName) + {"left", "top", "width", "height"}
    ensures forall k :: k in KeysOf(st, VirtualDmdName) && k !in {"left", "top", "width", "height"} ==>
              r.0.data[VirtualDmdName][k] == st.data[VirtualDmdName][k]
  {
    var quiet := vdmd.(doWrite := false);
    var s1 := SetValue(st, quiet, "left", format(position.left));
    var s2 := SetValue(s1, quiet, "top", format(position.top));
    assert s2.data[VirtualDmdName]["left"] == format(position.left);
    var s3 := SetValue(s2, quiet, "width", format(position.width));
    assert s3.data[VirtualDmdName]["left"] == format(position.left);
    assert s3.data[VirtualDmdName]["top"] == format(position.top);
    var s4 := SetValue(s3, quiet, "height", format(position.height));
    assert s4.data[VirtualDmdName]["left"] == format(position.left);
    assert s4.data[VirtualDmdName]["top"] == format(position.top);
    assert s4.data[VirtualDmdName]["width"] == format(position.width);
    Save(s4, quiet)
  }

  /** A string written under a key reads back unchanged. */
  lemma StringRoundTrip(st: Store, sec: Section, key: string, value: string, fallback: string)
    ensures GetString(SetString(st, sec, key, value), sec.name, key, fallback) == value
  {
  }

  /** A boolean written under a key reads back unchanged. */
  lemma BooleanSetGet(st: Store, sec: Section, key: string, value: bool, fallback: bool)
    ensures GetBoolean(SetBoolean(st, sec, key, value), sec.name, key, fallback) == Success(value)
  {
    BooleanRoundTrip(value);
  }

  /** An integer written under a key reads back unchanged. */
  lemma IntSetGet(st: Store, sec: Section, key: string, value: int32, fallback: int32)
    ensures GetInt(SetInt(st, sec, key, value), sec.name, key, fallback) == Success(value)
  {
    FormatParseRoundTrip(value);
  }

  /** A position written by SetPosition reads back, as far as double.Parse inverts double.ToString. */
  lemma PositionRoundTrip<D>(st: Store, vdmd: Section, position: Position<D>, format: D -> string,
                             parse: string -> Option<D>, zero: D, w1024: D, h256: D)
    requires vdmd.name == VirtualDmdName
    requires forall d :: parse(format(d)) == Some(d)
    ensures var r := SetPosition(st, vdmd, position, format);
            VirtualDmdPosition(r.0, zero, w1024, h256, parse)
              == Position(Success(position.left), Success(position.top), Success(position.width), Success(position.height))
  {
  }

  /** Writing one key leaves every other section and key reading as before, for strings and integers. */
  lemma SetLeavesOthers(st: Store, sec: Section, key: string, value: string, name: string, other: string,
                        fs: string, fi: int32)
    requires name != sec.name || other != key
    ensures GetString(SetValue(st, sec, key, value), name, other, fs) == GetString(st, name, other, fs)
    ensures GetInt(SetValue(st, sec, key, value), name, other, fi) == GetInt(st, name, other, fi)
    ensures Stored(SetValue(st, sec, key, value), name, other) == Stored(st, name, other)
  {
    StoredUnchanged(st, sec, key, value, name, other);
  }

  /** The stored text of any other section or key survives a set. */
  lemma StoredUnchanged(st: Store, sec: Section, key: string, value: string, name: string, other: string)
    requires name != sec.name || other != key
    ensures Stored(SetValue(st, sec, key, value), name, other) == Stored(st, name, other)
  {
    var r := SetValue(st, sec, key, value);
    if name != sec.name {
      assert name in r.data <==> name in st.data;
      if name in st.data {
        assert r.data[name] == st.data[name];
      }
    } else {
      assert other in KeysOf(r, name) <==> other in KeysOf(st, name);
      if other in KeysOf(st, name) {
        assert r.data[name][other] == st.data[name][other];
      }
    }
  }

  /**
   As written, GetBoolean is not framed the same way: writing any key into
   a section that did not exist makes every other boolean of that section
   throw instead of returning its fallback.
   */
  lemma SetBreaksOtherBoolean(st: Store, sec: Section, key: string, value: string, other: string, fallback: bool)
    requires sec.name !in st.data && other != key
    ensures GetBoolean(st, sec.name, other, fallback) == Success(fallback)
    ensures GetBoolean(SetValue(st, sec, key, value), sec.name, other, fallback) == Failure(ArgumentNullException)
  {
    assert other !in KeysOf(SetValue(st, sec, key, value), sec.name);
  }

  /** The concrete case: setting only the PinDmd3 port makes PinDmd3's Enabled throw. */
  lemma PortOnlyBreaksEnabled(sec: Section, port: string)
    requires sec.name == PinDmd3Name
    ensures Enabled(Load(map[]), PinDmd3Name) == Success(true)
    ensures Enabled(SetString(Load(map[]), sec, "port", port), PinDmd3Name) == Failure(ArgumentNullException)
  {
    SetBreaksOtherBoolean(Load(map[]), sec, "port", port, "enabled", true);
  }

  /** The intended GetBoolean is framed like the other getters. */
  lemma IntendedBooleanLeavesOthers(st: Store, sec: Section, key: string, value: string,
                                    name: string, other: string, fallback: bool)
    requires name != sec.name || other != key
    ensures GetBooleanIntended(SetValue(st, sec, key, value), name, other, fallback)
            == GetBooleanIntended(st, name, other, fallback)
  {
    SetLeavesOthers(st, sec, key, value, name, other, "", 0);
  }

  /** A value that is not a boolean literal is reported with the section, key and value. */
  lemma InvalidBooleanReported(st: Store, sec: Section, key: string, fallback: bool)
    ensures GetBoolean(SetString(st, sec, key, "yes"), sec.name, key, fallback)
            == Failure(InvalidIniValueException("Value \"" + "yes" + "\" for \"" + key + "\" under [" + sec.name
                                                + "] must be " + "either \"true\" or \"false\"" + "."))
  {
    var r := SetString(st, sec, key, "yes");
    assert Stored(r, sec.name, key) == Some("yes");
    assert ParseBoolean(Some("yes")) == Failure(Format) by {
      ParseBooleanExamples();
    }
    var expected := "either \"true\" or \"false\"";
    assert GetBoolean(r, sec.name, key, fallback)
           == Failure(InvalidIniValueException(InvalidValueMessage("yes", key, sec.name, expected)));
  }

  /** An integer literal beyond the 32-bit range makes GetInt throw OverflowException, which is not caught. */
  lemma IntOverflowEscapes(st: Store, sec: Section, key: string, n: nat, fallback: int32)
    requires n >= 0x8000_0000
    ensures GetInt(SetString(st, sec, key, NatToDigits(n)), sec.name, key, fallback) == Failure(OverflowException)
    ensures n > 0x8000_0000 ==>
              GetInt(SetString(st, sec, key, "-" + NatToDigits(n)), sec.name, key, fallback) == Failure(OverflowException)
  {
    ParsesDigits(n);
    OverflowEscapes(st, sec, key, NatToDigits(n), fallback);
    if n > 0x8000_0000 {
      ParsesNegatedDigits(n);
      OverflowEscapes(st, sec, key, "-" + NatToDigits(n), fallback);
    }
  }

  /** Whatever text int.Parse overflows on, once stored, makes GetInt throw OverflowException. */
  lemma OverflowEscapes(st: Store, sec: Section, key: string, text: string, fallback: int32)
    requires ParseInt32(text) == Failure(Overflow)
    ensures GetInt(SetString(st, sec, key, text), sec.name, key, fallback) == Failure(OverflowException)
  {
    assert Stored(SetString(st, sec, key, text), sec.name, key) == Some(text);
  }

  /**
   The defaults of a document with none of the sections: every Enabled is
   true, the PinDmd3 port is empty, and the virtual DMD sits at 0,0 with
   size 1024 by 256.
   */
  lemma Defaults<D>(zero: D, w1024: D, h256: D, parse: string -> Option<D>)
    ensures forall n :: n in SectionNames ==> Enabled(Load(map[]), n) == Success(true)
    ensures PinDmd3Port(Load(map[])) == ""
    ensures VirtualDmdPosition(Load(map[]), zero, w1024, h256, parse)
            == Position(Success(zero), Success(zero), Success(w1024), Success(h256))
  {
  }

  /** A run of Sets on one section saves once per Set when DoWrite is on and never when it is off. */
  function SetAll(st: Store, sec: Section, entries: seq<(string, string)>): Store
    decreases |entries|
  {
    if entries == [] then st
    else SetAll(SetValue(st, sec, entries[0].0, entries[0].1), sec, entries[1..])
  }

  lemma {:induction false} SetAllSaves(st: Store, sec: Section, entries: seq<(string, string)>)
    decreases |entries|
    ensures SetAll(st, sec, entries).saves == st.saves + (if sec.doWrite then |entries| else 0)
  {
    if entries != [] {
      SetAllSaves(SetValue(st, sec, entries[0].0, entries[0].1), sec, entries[1..]);
    }
  }
}
