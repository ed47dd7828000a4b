/**
 * `UserForm.get_lookup`: turns the single free-text value submitted to the user panel
 * into the one keyword filter used to select the user to log in as.
 *
 * The value arrives already cleaned by the form's character field.  The name of the
 * username attribute is the user model's configured `USERNAME_FIELD`, passed in here.
 */
module Forms {
  import opened Wrappers
  import opened PyInt

  /** The filter `get_lookup` returns, one alternative per branch of the source. */
  datatype Lookup =
    | Email(email: string)
    | Username(field: string, value: string)
    | Pk(pk: int)

  /** A value of this many characters or more is never taken as a primary key. */
  const PkLengthLimit: nat := 10

  /**
   * The lookup for the submitted value `val`: an email filter when `val` contains `@`;
   * otherwise a primary-key filter on `int(val)` when `int(val)` succeeds and `val` is
   * shorter than `PkLengthLimit`; otherwise a filter on the username field with `val`.
   */
  function GetLookup(usernameField: string, val: string): (r: Lookup)
    ensures r.Email? <==> '@' in val
    ensures r.Pk? <==> '@' !in val && IsIntLiteral(val) && |val| < PkLengthLimit
    ensures r.Email? ==> r.email == val
    ensures r.Username? ==> r.field == usernameField && r.value == val
    ensures r.Pk? ==> r.pk == LiteralValue(val)
  {
    if '@' in val then
      Email(val)
    else
      match ParseInt(val)
      case Some(v) => if |val| >= PkLengthLimit then Username(usernameField, val) else Pk(v)
      case None => Username(usernameField, val)
  }

  /** The value side of a Python keyword filter. */
  datatype FilterValue = Text(text: string) | Integer(number: int)

  /** The dictionary `get_lookup` returns, as passed on as keyword arguments to the user query. */
  function Kwargs(l: Lookup): (m: map<string, FilterValue>)
    ensures |m| == 1
    ensures l.Email? ==> "email" in m && m["email"] == Text(l.email)
    ensures l.Username? ==> l.field in m && m[l.field] == Text(l.value)
    ensures l.Pk? ==> "pk" in m && m["pk"] == Integer(l.pk)
  {
    match l
    case Email(e) => map["email" := Text(e)]
    case Username(f, v) => map[f := Text(v)]
    case Pk(n) => map["pk" := Integer(n)]
  }

  // ---------------------------------------------------------------------------
  // The branches, one lemma each

  /** Every input gives exactly one filter with exactly one key, and it is one of the three the source names. */
  lemma ExactlyOneKey(usernameField: string, val: string)
    ensures var m := Kwargs(GetLookup(usernameField, val));
      |m| == 1 &&
      (m == map["email" := Text(val)] || m == map[usernameField := Text(val)] ||
       exists n :: m == map["pk" := Integer(n)])
  {
    var l := GetLookup(usernameField, val);
    if l.Pk? {
      assert Kwargs(l) == map["pk" := Integer(l.pk)];
    }
  }

  /** A value containing `@` is looked up by email, unchanged. */
  lemma EmailLookup(usernameField: string, val: string)
    requires '@' in val
    ensures Kwargs(GetLookup(usernameField, val)) == map["email" := Text(val)]
  {
  }

  /**
   * `int()` never accepts a value containing `@`, so testing for `@` before trying the
   * conversion decides nothing the conversion would not: the two branches cannot overlap.
   */
  lemma {:induction false} AtSignNeverParses(val: string)
    requires '@' in val
    ensures !IsIntLiteral(val)
    ensures ParseInt(val) == None
  {
    StripKeeps(val, '@');
    var t := Strip(val);
    var k :| 0 <= k < |t| && t[k] == '@';
    assert !(IsDigit(t[k]) || t[k] == '_');
    if |t| > 0 && (t[0] == '+' || t[0] == '-') {
      assert k != 0;
      assert t[1..][k - 1] == '@';
    }
  }

  /** A value that `int()` accepts but that is `PkLengthLimit` characters or longer is looked up by username, as text. */
  lemma LongNumberIsUsername(usernameField: string, val: string)
    requires '@' !in val && IsIntLiteral(val) && |val| >= PkLengthLimit
    ensures Kwargs(GetLookup(usernameField, val)) == map[usernameField := Text(val)]
  {
  }

  /** A shorter value that `int()` accepts is looked up by primary key, with the converted integer. */
  lemma ShortNumberIsPk(usernameField: string, val: string)
    requires '@' !in val && IsIntLiteral(val) && |val| < PkLengthLimit
    ensures Kwargs(GetLookup(usernameField, val)) == map["pk" := Integer(LiteralValue(val))]
  {
  }

  /** A value without `@` that `int()` refuses (the empty string among them) is looked up by username, unchanged. */
  lemma NonNumberIsUsername(usernameField: string, val: string)
    requires '@' !in val && ParseInt(val) == None
    ensures Kwargs(GetLookup(usernameField, val)) == map[usernameField := Text(val)]
  {
  }

  /** The username key is the configured field, whatever it is called: nothing else in the result depends on it. */
  lemma UsernameFieldInjected(f1: string, f2: string, val: string)
    ensures GetLookup(f1, val).Username? <==> GetLookup(f2, val).Username?
    ensures GetLookup(f1, val).Username? ==> GetLookup(f1, val).field == f1
    ensures !GetLookup(f1, val).Username? ==> GetLookup(f1, val) == GetLookup(f2, val)
  {
  }

  // ---------------------------------------------------------------------------
  // Primary keys

  /**
   * A primary key reached through the form has at most nine digits, so it lies strictly
   * inside the signed 32-bit range; a sign, leading zeros and underscores all count
   * against the nine characters.
   */
  lemma PkHasAtMostNineDigits(usernameField: string, val: string)
    requires GetLookup(usernameField, val).Pk?
    ensures -999_999_999 <= GetLookup(usernameField, val).pk <= 999_999_999
  {
    LiteralValueBound(val);
    var t := Strip(val);
    assert |t| <= 9;
    if t[0] == '+' || t[0] == '-' {
      PowMonotone(|t| - 1, 9);
    } else {
      PowMonotone(|t|, 9);
    }
  }

  lemma {:induction false} PowMonotone(j: nat, k: nat)
    requires j <= k
    ensures Pow10(j) <= Pow10(k)
    decreases k
  {
    if j < k {
      PowMonotone(j, k - 1);
    }
  }

  /** A non-negative primary key of at most nine digits, typed as it is displayed, is looked up by that key. */
  lemma PkRoundTrip(usernameField: string, n: nat)
    requires n < 1_000_000_000
    ensures GetLookup(usernameField, Decimal(n)) == Pk(n)
  {
    ParseDecimal(n);
    DecimalLength(n, 9);
    assert Pow10(9) == 1_000_000_000;
  }

  /** A negative primary key of at most eight digits, typed with its minus sign, is looked up by that key. */
  lemma NegativePkRoundTrip(usernameField: string, n: nat)
    requires n < 100_000_000
    ensures GetLookup(usernameField, "-" + Decimal(n)) == Pk(-(n as int))
  {
    ParseNegativeDecimal(n);
    DecimalLength(n, 8);
    assert Pow10(8) == 100_000_000;
  }

  /** A primary key of ten digits or more, typed as it is displayed, is looked up as a username instead. */
  lemma LongPkIsUsername(usernameField: string, n: nat)
    requires n >= 1_000_000_000
    ensures GetLookup(usernameField, Decimal(n)) == Username(usernameField, Decimal(n))
  {
    DecimalLength(n, 9);
    assert Pow10(9) == 1_000_000_000;
  }

  // ---------------------------------------------------------------------------
  // Worked examples

  lemma EmailExample()
    ensures GetLookup("username", "a@b.com") == Email("a@b.com")
  {
  }

  lemma ShortNumberExample()
    ensures GetLookup("username", "123") == Pk(123)
  {
    assert Decimal(123) == "123";
    PkRoundTrip("username", 123);
  }

  lemma TenDigitExample()
    ensures GetLookup("username", "1234567890") == Username("username", "1234567890")
  {
    assert Decimal(1234567890) == "1234567890";
    LongPkIsUsername("username", 1234567890);
  }

  lemma NameExample()
    ensures GetLookup("username", "alice") == Username("username", "alice")
  {
    StripNoSpace("alice");
    assert !IsDigit("alice"[0]);
  }

  lemma EmptyExample()
    ensures GetLookup("username", "") == Username("username", "")
  {
    StripNoSpace("");
  }

  /** The length limit is measured on the raw text: a minus sign counts against it. */
  lemma SignCountsExample()
    ensures GetLookup("email", "-123456789") == Username("email", "-123456789")
  {
    var s := "-123456789";
    assert forall i :: 0 <= i < |s[1..]| ==> IsDigit(s[1..][i]);
    assert IsDigitGroups(s[1..]);
    ParseMinusDigits(s);
    assert forall i :: 0 <= i < |s| ==> s[i] != '@';
    LongNumberIsUsername("email", s);
  }

  /** Leading zeros count against the length limit too. */
  lemma LeadingZerosExample()
    ensures GetLookup("email", "0000000042") == Username("email", "0000000042")
  {
    var z := "0000000042";
    assert forall i :: 0 <= i < |z| ==> IsDigit(z[i]);
    StripNoSpace(z);
    assert IsDigitGroups(z);
    assert forall i :: 0 <= i < |z| ==> z[i] != '@';
    LongNumberIsUsername("email", z);
  }

  /** Underscores between digits are accepted and ignored in the value. */
  lemma UnderscoreExample()
    ensures GetLookup("email", "1_000") == Pk(1000)
  {
    var u := "1_000";
    assert IsIntLiteral(u) by {
      assert forall i :: 0 <= i < |u| ==> IsDigit(u[i]) || u[i] == '_';
      StripNoSpace(u);
      assert IsDigitGroups(u);
    }
    assert LiteralValue(u) == 1000 by {
      StripNoSpace(u);
      assert IsDigit(u[0]);
      UnderscoreValue();
    }
    assert forall i :: 0 <= i < |u| ==> u[i] != '@';
    ShortNumberIsPk("email", u);
  }

  lemma UnderscoreValue()
    ensures DecimalValue("1_000") == 1000
  {
    var u := "1_000";
    assert u[..4] == "1_00" && u[..3] == "1_0" && u[..2] == "1_" && u[..1] == "1";
    assert "1_00"[..3] == "1_0" && "1_0"[..2] == "1_" && "1_"[..1] == "1" && "1"[..0] == "";
  }
}
