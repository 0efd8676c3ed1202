/**
 * The per-type plan of the object parser (BaseObjectParser<TModel>): how
 * an instance is constructed, and the dictionary from lower-cased member
 * name to setter that populates it from a row.
 */
module ObjectParser {

  import opened Wrappers
  import opened Values
  import opened TypeCatalog

  // Construction

  /** A public instance constructor, by its parameter types. */
  datatype Constructor = Constructor(parameters: seq<DeclaredType>)

  /** How the parser instantiates the target type. */
  datatype ConstructionPlan =
    | ZeroArgument(ctor: Constructor)
    | WithDefaults(ctor: Constructor, arguments: seq<Value>)

  function Arity(c: Constructor): nat {
    |c.parameters|
  }

  ghost predicate SortedByArity(cs: seq<Constructor>) {
    forall i, j | 0 <= i < j < |cs| :: Arity(cs[i]) <= Arity(cs[j])
  }

  /** Inserts `c` before the first constructor with at least its arity. */
  function InsertByArity(c: Constructor, cs: seq<Constructor>): (r: seq<Constructor>)
    requires SortedByArity(cs)
    ensures SortedByArity(r)
    ensures multiset(r) == multiset(cs) + multiset{c}
    ensures |r| == |cs| + 1
    ensures r[0] == c || (cs != [] && r[0] == cs[0])
  {
    if cs == [] || Arity(c) <= Arity(cs[0]) then ConsSorted(c, cs); [c] + cs
    else
      SortedTail(cs);
      var tail := cs[1..];
      var rest := InsertByArity(c, tail);
      assert tail != [] ==> Arity(cs[0]) <= Arity(tail[0]) by {
        if tail != [] { assert tail[0] == cs[1]; }
      }
      ConsSorted(cs[0], rest);
      assert cs == [cs[0]] + tail;
      assert multiset([cs[0]] + rest) == multiset{cs[0]} + multiset(rest);
      [cs[0]] + rest
  }

  lemma SortedTail(cs: seq<Constructor>)
    requires cs != [] && SortedByArity(cs)
    ensures SortedByArity(cs[1..])
  {
    forall i, j | 0 <= i < j < |cs| - 1 ensures Arity(cs[1..][i]) <= Arity(cs[1..][j]) {
      assert cs[1..][i] == cs[i + 1] && cs[1..][j] == cs[j + 1];
    }
  }

  lemma ConsSorted(x: Constructor, cs: seq<Constructor>)
    requires SortedByArity(cs) && (cs != [] ==> Arity(x) <= Arity(cs[0]))
    ensures SortedByArity([x] + cs)
  {
    var r := [x] + cs;
    forall i, j | 0 <= i < j < |r| ensures Arity(r[i]) <= Arity(r[j]) {
      if i == 0 {
        assert r[j] == cs[j - 1];
        assert Arity(cs[0]) <= Arity(cs[j - 1]) || j - 1 == 0;
      } else {
        assert r[i] == cs[i - 1] && r[j] == cs[j - 1];
      }
    }
  }

  /** OrderBy(ci => ci.GetParameters().Length): a sort by parameter count. */
  function OrderByArity(cs: seq<Constructor>): (r: seq<Constructor>)
    ensures SortedByArity(r)
    ensures multiset(r) == multiset(cs)
    ensures |r| == |cs|
  {
    if cs == [] then []
    else
      assert cs == [cs[0]] + cs[1..];
      InsertByArity(cs[0], OrderByArity(cs[1..]))
  }

  /** default(T) for each parameter, in order. */
  function DefaultArguments(parameters: seq<DeclaredType>): seq<Value> {
    seq(|parameters|, j requires 0 <= j < |parameters| => Default(parameters[j]))
  }

  /**
   * The construction plan BuildNewFunc compiles. It takes a constructor
   * with the fewest parameters; no row data is ever bound to a parameter.
   */
  function ChooseConstructor(ctors: seq<Constructor>): (r: Result<ConstructionPlan, Error>)
    ensures r.Failure? <==> ctors == []
    ensures r.Failure? ==> r.error == InvalidOperation
    ensures r.Success? ==> r.value.ctor in ctors
    ensures r.Success? ==> forall c | c in ctors :: Arity(r.value.ctor) <= Arity(c)
    ensures r.Success? ==> (r.value.ZeroArgument? <==> exists c | c in ctors :: c.parameters == [])
    ensures r.Success? && r.value.WithDefaults? ==>
              |r.value.arguments| == Arity(r.value.ctor) &&
              forall j | 0 <= j < |r.value.arguments| :: r.value.arguments[j] == Default(r.value.ctor.parameters[j])
  {
    if ctors == [] then Failure(InvalidOperation)
    else
      var ordered := OrderByArity(ctors);
      FirstIsCheapest(ctors, ordered);
      var c := ordered[0];
      if Arity(c) == 0 then Success(ZeroArgument(c))
      else Success(WithDefaults(c, DefaultArguments(c.parameters)))
  }

  lemma FirstIsCheapest(ctors: seq<Constructor>, ordered: seq<Constructor>)
    requires ctors != [] && SortedByArity(ordered) && multiset(ordered) == multiset(ctors)
    ensures ordered != [] && ordered[0] in ctors
    ensures forall c | c in ctors :: Arity(ordered[0]) <= Arity(c)
  {
    assert ctors[0] in multiset(ordered);
    assert ordered[0] in multiset(ctors);
    forall c | c in ctors
      ensures Arity(ordered[0]) <= Arity(c)
    {
      assert c in multiset(ordered);
      var k :| 0 <= k < |ordered| && ordered[k] == c;
    }
  }

  /**
   * BuildNewFunc: orders the public instance constructors by parameter
   * count and compiles the first. Every pass of the source's loop over
   * the ordered constructors returns, so only the first is ever looked at;
   * with none at all it throws InvalidOperationException.
   */
  method BuildNewFunc(ctors: seq<Constructor>) returns (r: Result<ConstructionPlan, Error>)
    ensures r == ChooseConstructor(ctors)
  {
    var ordered := OrderByArity(ctors);
    if |ordered| == 0 {
      return Failure(InvalidOperation);
    }
    var c := ordered[0];
    if |c.parameters| == 0 {
      return Success(ZeroArgument(c));
    }
    var arguments: seq<Value> := [];
    for j := 0 to |c.parameters|
      invariant |arguments| == j
      invariant forall k | 0 <= k < j :: arguments[k] == Default(c.parameters[k])
    {
      arguments := arguments + [Default(c.parameters[j])];
    }
    assert arguments == DefaultArguments(c.parameters);
    return Success(WithDefaults(c, arguments));
  }

  // Setter dictionary

  /** A public instance member as the builders see it: a field, or a property after the CanWrite filter. */
  datatype Member = Member(name: string, declared: DeclaredType)

  /** A public instance property and whether it has a setter. */
  datatype Property = Property(name: string, declared: DeclaredType, canWrite: bool)

  /** A compiled setter: assigns `member` the value `rule` extracts and returns the model. */
  datatype Setter = Setter(member: string, rule: Rule)

  predicate IsUpper(ch: char) {
    'A' <= ch <= 'Z'
  }

  /** `a` and `b` are the same letter up to ASCII case, or the same character. */
  predicate CaseVariant(a: char, b: char) {
    a == b || (IsUpper(a) && b as int == a as int + 32) || (IsUpper(b) && a as int == b as int + 32)
  }

  function LowerChar(ch: char): char {
    if IsUpper(ch) then (ch as int - 'A' as int + 'a' as int) as char else ch
  }

  /** String.ToLower, on the ASCII letters: each character is kept or replaced by its lower-case variant. */
  function Lower(s: string): (r: string)
    ensures |r| == |s|
    ensures forall i | 0 <= i < |s| :: !IsUpper(r[i]) && CaseVariant(s[i], r[i])
  {
    seq(|s|, i requires 0 <= i < |s| => LowerChar(s[i]))
  }

  /** Two characters lower-case alike exactly when they are case variants of each other. */
  lemma LowerCharAlike(a: char, b: char)
    ensures LowerChar(a) == LowerChar(b) <==> CaseVariant(a, b)
  {
  }

  /**
   * Two names get the same key exactly when they have the same length and
   * differ only in ASCII letter case.
   */
  lemma LowerAlike(a: string, b: string)
    ensures Lower(a) == Lower(b) <==> |a| == |b| && forall i | 0 <= i < |a| :: CaseVariant(a[i], b[i])
  {
    if Lower(a) == Lower(b) {
      forall i | 0 <= i < |a| ensures CaseVariant(a[i], b[i]) {
        assert Lower(a)[i] == Lower(b)[i];
        LowerCharAlike(a[i], b[i]);
      }
    }
    if |a| == |b| && forall i | 0 <= i < |a| :: CaseVariant(a[i], b[i]) {
      forall i | 0 <= i < |a| ensures Lower(a)[i] == Lower(b)[i] {
        LowerCharAlike(a[i], b[i]);
      }
    }
  }

  /** Lower-casing a key again changes nothing. */
  lemma LowerIdempotent(s: string)
    ensures Lower(Lower(s)) == Lower(s)
  {
    forall i | 0 <= i < |s| ensures Lower(Lower(s))[i] == Lower(s)[i] {
      assert !IsUpper(Lower(s)[i]);
    }
  }

  /** The dictionary key a member would get, when its type is recognised. */
  predicate Provides(m: Member, key: string) {
    Classify(m.declared).Some? && Lower(m.name) == key
  }

  /**
   * The dictionary the builder loop leaves after the members in order:
   * a member of an unrecognised type is skipped, a recognised one is added
   * under its lower-cased name, and a key added twice throws.
   */
  function PlanOf(ms: seq<Member>): (r: Result<map<string, Setter>, Error>)
    ensures r.Failure? ==> r.error.DuplicateKey?
    ensures r.Success? ==> forall k | k in r.value :: Lower(r.value[k].member) == k
    decreases |ms|
  {
    if ms == [] then Success(map[])
    else
      match PlanOf(ms[..|ms| - 1])
      case Failure(e) => Failure(e)
      case Success(plan) =>
        var m := ms[|ms| - 1];
        match Classify(m.declared)
        case None => Success(plan)
        case Some(rule) =>
          var key := Lower(m.name);
          if key in plan then Failure(DuplicateKey(key)) else Success(plan[key := Setter(m.name, rule)])
  }

  /** The foreach shared by both builders: fills the dictionary in place, stopping at the first duplicate key. */
  method BuildSetterDictionary(ms: seq<Member>) returns (r: Result<map<string, Setter>, Error>)
    ensures r == PlanOf(ms)
  {
    var funcsByName: map<string, Setter> := map[];
    for i := 0 to |ms|
      invariant PlanOf(ms[..i]) == Success(funcsByName)
    {
      var m := ms[i];
      assert ms[..i + 1][..i] == ms[..i];
      var rule := Classify(m.declared);
      if rule.None? {
        continue;
      }
      var key := Lower(m.name);
      if key in funcsByName {
        FailureSticks(ms, i + 1);
        assert ms[..|ms|] == ms;
        return Failure(DuplicateKey(key));
      }
      funcsByName := funcsByName[key := Setter(m.name, rule.value)];
    }
    assert ms[..|ms|] == ms;
    return Success(funcsByName);
  }

  /** Once the builder has thrown, the members after it change nothing. */
  lemma {:induction false} FailureSticks(ms: seq<Member>, n: nat)
    requires n <= |ms| && PlanOf(ms[..n]).Failure?
    ensures PlanOf(ms) == PlanOf(ms[..n])
    decreases |ms| - n
  {
    if n < |ms| {
      assert ms[..n + 1][..n] == ms[..n];
      FailureSticks(ms, n + 1);
    } else {
      assert ms[..n] == ms;
    }
  }

  /** The properties that take part: those with CanWrite, in order. */
  function Writable(props: seq<Property>): (ms: seq<Member>)
    ensures forall m | m in ms :: exists p | p in props :: p.canWrite && m == Member(p.name, p.declared)
    ensures forall p | p in props && p.canWrite :: Member(p.name, p.declared) in ms
    ensures |ms| <= |props|
    ensures (forall p | p in props :: p.canWrite) ==> |ms| == |props|
  {
    if props == [] then []
    else
      var p := props[0];
      (if p.canWrite then [Member(p.name, p.declared)] else []) + Writable(props[1..])
  }

  /** Where keeps order and multiplicity: filtering a concatenation filters each part in turn. */
  lemma {:induction false} WritableAppend(p: seq<Property>, q: seq<Property>)
    ensures Writable(p + q) == Writable(p) + Writable(q)
    decreases |p|
  {
    if p != [] {
      assert (p + q)[1..] == p[1..] + q;
      WritableAppend(p[1..], q);
    } else {
      assert p + q == q;
    }
  }

  /** A single property takes part exactly when it has a setter. */
  lemma WritableOne(p: Property)
    ensures Writable([p]) == if p.canWrite then [Member(p.name, p.declared)] else []
  {
    assert [p][1..] == [];
  }

  /** BuildObjectPropertiesExpressions: the dictionary over the writable public instance properties. */
  method BuildObjectPropertiesExpressions(props: seq<Property>) returns (r: Result<map<string, Setter>, Error>)
    ensures r == PlanOf(Writable(props))
  {
    r := BuildSetterDictionary(Writable(props));
  }

  /** BuildObjectFieldsExpressions: the same dictionary over the public instance fields, with the same cascade. */
  method BuildObjectFieldsExpressions(fields: seq<Member>) returns (r: Result<map<string, Setter>, Error>)
    ensures r == PlanOf(fields)
  {
    r := BuildSetterDictionary(fields);
  }

  /**
   * The compiled setter (assignment, goto, label x): the model comes back
   * with the one member assigned and every other member as it was.
   */
  function ApplySetter(s: Setter, x: map<string, Value>, row: seq<Cell>, ordinal: int): (r: Result<map<string, Value>, Error>)
    ensures r.Failure? <==> Extract(s.rule, row, ordinal).Failure?
    ensures r.Failure? ==> r.error == Extract(s.rule, row, ordinal).error
    ensures r.Success? ==> r.value.Keys == x.Keys + {s.member}
    ensures r.Success? ==> r.value[s.member] == Extract(s.rule, row, ordinal).value
    ensures r.Success? ==> forall n | n in x && n != s.member :: r.value[n] == x[n]
  {
    match Extract(s.rule, row, ordinal)
    case Failure(e) => Failure(e)
    case Success(v) => Success(x[s.member := v])
  }

  // Properties of the plan

  /**
   * A built dictionary has exactly one key per recognised member, its
   * lower-cased name, and that key's setter writes that member with the
   * rule of its declared type.
   */
  lemma {:induction false} PlanEntries(ms: seq<Member>)
    requires PlanOf(ms).Success?
    ensures forall k :: k in PlanOf(ms).value <==> exists j | 0 <= j < |ms| :: Provides(ms[j], k)
    ensures forall k | k in PlanOf(ms).value :: exists j | 0 <= j < |ms| ::
              Provides(ms[j], k) && PlanOf(ms).value[k] == Setter(ms[j].name, Classify(ms[j].declared).value)
    decreases |ms|
  {
    if ms != [] {
      var prefix := ms[..|ms| - 1];
      PlanEntries(prefix);
      forall j | 0 <= j < |prefix| ensures prefix[j] == ms[j] { }
    }
  }

  /** Two recognised members never share a lower-cased name. */
  ghost predicate KeysDistinct(ms: seq<Member>) {
    forall i, j | 0 <= i < j < |ms| && Classify(ms[i].declared).Some? && Classify(ms[j].declared).Some? ::
      Lower(ms[i].name) != Lower(ms[j].name)
  }

  /**
   * Building succeeds exactly when no two recognised members lower-case
   * to the same name; otherwise Dictionary.Add throws on the clash
   * instead of merging the two.
   */
  lemma {:induction false} PlanSucceedsIffKeysDistinct(ms: seq<Member>)
    ensures PlanOf(ms).Success? <==> KeysDistinct(ms)
    ensures PlanOf(ms).Failure? ==> PlanOf(ms).error.DuplicateKey?
    decreases |ms|
  {
    if ms != [] {
      var n := |ms| - 1;
      var prefix := ms[..n];
      PlanSucceedsIffKeysDistinct(prefix);
      forall j | 0 <= j < n ensures prefix[j] == ms[j] { }
      if PlanOf(prefix).Success? {
        PlanEntries(prefix);
        var m := ms[n];
        if Classify(m.declared).Some? && Lower(m.name) in PlanOf(prefix).value {
          var j :| 0 <= j < n && Provides(prefix[j], Lower(m.name));
          assert !KeysDistinct(ms) by {
            assert Classify(ms[j].declared).Some? && Lower(ms[j].name) == Lower(ms[n].name);
          }
        } else {
          assert KeysDistinct(ms) by {
            forall i, j | 0 <= i < j < |ms| && Classify(ms[i].declared).Some? && Classify(ms[j].declared).Some?
              ensures Lower(ms[i].name) != Lower(ms[j].name)
            {
              if j == n {
                assert !Provides(prefix[i], Lower(m.name));
              }
            }
          }
        }
      } else {
        assert !KeysDistinct(prefix);
        var i, j :| 0 <= i < j < n && Classify(prefix[i].declared).Some? && Classify(prefix[j].declared).Some?
                    && Lower(prefix[i].name) == Lower(prefix[j].name);
        assert !KeysDistinct(ms) by {
          assert Classify(ms[i].declared).Some? && Classify(ms[j].declared).Some?;
        }
      }
    }
  }

  /** A property without a setter never gets an entry, whatever its type. */
  lemma ReadOnlyPropertiesIgnored(props: seq<Property>, k: string)
    requires PlanOf(Writable(props)).Success?
    ensures k in PlanOf(Writable(props)).value <==>
              exists p | p in props :: p.canWrite && Provides(Member(p.name, p.declared), k)
  {
    var ms := Writable(props);
    PlanEntries(ms);
    if k in PlanOf(ms).value {
      var j :| 0 <= j < |ms| && Provides(ms[j], k);
      assert ms[j] in ms;
    }
    if exists p | p in props :: p.canWrite && Provides(Member(p.name, p.declared), k) {
      var p :| p in props && p.canWrite && Provides(Member(p.name, p.declared), k);
      var j :| 0 <= j < |ms| && ms[j] == Member(p.name, p.declared);
      assert Provides(ms[j], k);
    }
  }

  /** Matching is case-insensitive: "Id", "ID" and "iD" all name the key "id". */
  lemma KeysIgnoreCase()
    ensures Lower("Id") == Lower("ID") == Lower("iD") == "id"
  {
  }

  /** Two members that differ only by case are not merged: building throws. */
  lemma CaseVariantsClash()
    ensures PlanOf([Member("Id", Scalar(Int32, false)), Member("ID", StringType)]) == Failure(DuplicateKey("id"))
  {
    var ms := [Member("Id", Scalar(Int32, false)), Member("ID", StringType)];
    assert ms[..1] == [ms[0]];
    assert ms[..1][..0] == [];
    KeysIgnoreCase();
  }

  /** The two members of the record example below. */
  const IdMember := Member("Id", Scalar(Int32, false))
  const NameMember := Member("Name", StringType)

  /** The plan of the record example holds the keys "id" and "name", whatever the case of the declared names. */
  lemma RecordExamplePlan()
    ensures PlanOf([IdMember, NameMember]) == Success(map[
              Lower("id") := Setter("Id", Direct(Reader.GetInt32, IdMember.declared)),
              Lower("NAME") := Setter("Name", Direct(Reader.GetString, NameMember.declared))])
  {
    var ms := [IdMember, NameMember];
    assert Lower("Id") == "id" == Lower("id");
    assert Lower("Name") == "name" == Lower("NAME");
    assert Classify(IdMember.declared) == Some(Direct(Reader.GetInt32, IdMember.declared));
    assert Classify(NameMember.declared) == Some(Direct(Reader.GetString, NameMember.declared));
    assert ms[..|ms| - 1] == [IdMember] && [IdMember][..0] == [];
    assert PlanOf([]) == Success(map[]);
    assert PlanOf([IdMember]) == Success(map["id" := Setter("Id", Direct(Reader.GetInt32, IdMember.declared))]);
  }

  /** A record with members Id and Name, populated from a row holding 5 and "Ann". */
  lemma RecordExample()
    ensures var row := [Val(DInt(5)), Val(DText("Ann"))];
            var x := map["Id" := Data(DInt(0)), "Name" := NullValue];
            var plan := PlanOf([IdMember, NameMember]);
            && plan.Success? && Lower("id") in plan.value && Lower("NAME") in plan.value
            && ApplySetter(plan.value[Lower("id")], x, row, 0).Success?
            && ApplySetter(plan.value[Lower("NAME")], ApplySetter(plan.value[Lower("id")], x, row, 0).value, row, 1)
               == Success(map["Id" := Data(DInt(5)), "Name" := Data(DText("Ann"))])
  {
    RecordExamplePlan();
    var row := [Val(DInt(5)), Val(DText("Ann"))];
    assert Extract(Direct(Reader.GetInt32, IdMember.declared), row, 0) == Success(Data(DInt(5)));
    assert Extract(Direct(Reader.GetString, NameMember.declared), row, 1) == Success(Data(DText("Ann")));
    var x := map["Id" := Data(DInt(0)), "Name" := NullValue];
    var plan := PlanOf([IdMember, NameMember]).value;
    assert ApplySetter(plan[Lower("id")], x, row, 0) == Success(x["Id" := Data(DInt(5))]);
    assert x["Id" := Data(DInt(5))]["Name" := Data(DText("Ann"))] == map["Id" := Data(DInt(5)), "Name" := Data(DText("Ann"))];
  }
}
