/**
 * The account card (src/components/ofx/AccountCard.tsx): the label shown for the
 * account type and the balance with its sign. Rendering and currency formatting are
 * not modelled; only the values the card computes are.
 */
module AccountCard {
  import opened Wrappers
  import opened Strings

  /** `t || ""`: an absent or empty type is shown as the empty string. */
  function RawType(t: Option<string>): (r: string)
    ensures t.Some? ==> r == t.value
    ensures t.None? ==> r == ""
  {
    t.GetOr("")
  }

  /**
   * `mapType(t, locale = "pt-BR")`: the two known account types, recognised in any case,
   * get a label in Portuguese when the locale is `pt-BR` and in English otherwise; any
   * other value is shown as it is.
   */
  function MapType(t: Option<string>, locale: string := "pt-BR"): (shown: string)
    ensures shown != RawType(t) ==> ToUpper(RawType(t)) == "CHECKING" || ToUpper(RawType(t)) == "SAVINGS"
  {
    var kind := ToUpper(RawType(t));
    var isPT := locale == "pt-BR";
    if kind == "CHECKING" then (if isPT then "Corrente" else "Checking")
    else if kind == "SAVINGS" then (if isPT then "Poupança" else "Savings")
    else RawType(t)
  }

  /**
   * A type upper-casing to `CHECKING` is labelled `Corrente` exactly when the locale is
   * `pt-BR`, and `Checking` otherwise.
   */
  lemma MapTypeChecking(t: Option<string>, locale: string)
    requires ToUpper(RawType(t)) == "CHECKING"
    ensures MapType(t, locale) == "Corrente" <==> locale == "pt-BR"
    ensures MapType(t, locale) == "Checking" <==> locale != "pt-BR"
  {
  }

  /** A type upper-casing to `SAVINGS` is labelled `Poupança` or `Savings` by the same rule. */
  lemma MapTypeSavings(t: Option<string>, locale: string)
    requires ToUpper(RawType(t)) == "SAVINGS"
    ensures MapType(t, locale) == "Poupança" <==> locale == "pt-BR"
    ensures MapType(t, locale) == "Savings" <==> locale != "pt-BR"
  {
  }

  /** Every other value is returned unchanged, keeping its case; an absent one gives `""`. */
  lemma MapTypeOther(t: Option<string>, locale: string)
    requires ToUpper(RawType(t)) != "CHECKING" && ToUpper(RawType(t)) != "SAVINGS"
    ensures MapType(t, locale) == RawType(t)
    ensures t.None? ==> MapType(t, locale) == ""
  {
  }

  /** Recognition ignores case: `checking`, `Checking` and `CHECKING` get the same label. */
  lemma MapTypeIgnoresCase(t: string, locale: string)
    requires ToUpper(t) == "CHECKING" || ToUpper(t) == "SAVINGS"
    ensures MapType(Some(t), locale) == MapType(Some(ToUpper(t)), locale)
  {
    UpperIsUpperCased(t);
    UpperCasedIsFixpoint(ToUpper(t));
  }

  /** Without a locale the card labels in Portuguese. */
  lemma MapTypeDefaultLocale(t: Option<string>)
    ensures MapType(t) == MapType(t, "pt-BR")
    ensures ToUpper(RawType(t)) == "CHECKING" ==> MapType(t) == "Corrente"
    ensures ToUpper(RawType(t)) == "SAVINGS" ==> MapType(t) == "Poupança"
  {
  }

  /** `account.balance ?? 0`. */
  function DisplayBalance(balance: Option<real>): (bal: real)
    ensures balance.None? ==> bal == 0.0
    ensures balance.Some? ==> bal == balance.value
  {
    balance.GetOr(0.0)
  }

  /** `bal >= 0`: the balance is shown in the success colour. */
  predicate IsPositive(bal: real) {
    bal >= 0.0
  }

  /** An absent balance is shown as a positive zero; a present one is positive iff it is not negative. */
  lemma BalanceSign(balance: Option<real>)
    ensures IsPositive(DisplayBalance(balance)) <==> balance.None? || balance.value >= 0.0
  {
  }
}
