// The representation an exchange is asked for (tokentype.go). OutputType is a Go
// int, so values other than the two constants occur and have a printed form.

module Outputs {
  import opened GoStrings
  import Decimal

  type OutputType = int

  const CCACHE: OutputType := 0
  const APREQ: OutputType := 1

  const CCACHE_URI := Ascii("https://github.com/hstern/go-oauth2-kerberos-exchange/token-type/krb5-ccache")
  const APREQ_URI := Ascii("https://github.com/hstern/go-oauth2-kerberos-exchange/token-type/krb5-apreq")

  predicate Defined(o: OutputType) { o == CCACHE || o == APREQ }

  // OutputType.String
  function Print(o: OutputType): GoString {
    if o == CCACHE then Ascii("ccache")
    else if o == APREQ then Ascii("apreq")
    else Ascii("OutputType(") + Decimal.PrintSigned(o) + Ascii(")")
  }

  // OutputType.TokenType
  function TokenType(o: OutputType): GoString {
    if o == CCACHE then CCACHE_URI else if o == APREQ then APREQ_URI else []
  }

  // OutputTypeFromTokenType; None is ErrUnknownTokenType.
  function FromTokenType(uri: GoString): Option<OutputType> {
    if uri == [] || uri == CCACHE_URI then Some(CCACHE)
    else if uri == APREQ_URI then Some(APREQ)
    else None
  }

  // Reading a token type inverts writing it for exactly the defined outputs.
  lemma FromTokenTypeInverts(o: OutputType)
    ensures FromTokenType(TokenType(o)) == Some(o) <==> Defined(o)
  {
    assert |CCACHE_URI| != |APREQ_URI| && |CCACHE_URI| > 0;
  }

  // Exactly what is read as which output: no token type at all asks for a
  // credential cache.
  lemma TokenTypeMeaning(uri: GoString)
    ensures FromTokenType(uri) == Some(0) <==>
            uri == [] || uri == Ascii("https://github.com/hstern/go-oauth2-kerberos-exchange/token-type/krb5-ccache")
    ensures FromTokenType(uri) == Some(1) <==>
            uri == Ascii("https://github.com/hstern/go-oauth2-kerberos-exchange/token-type/krb5-apreq")
    ensures FromTokenType(uri).Some? ==> Defined(FromTokenType(uri).value)
  {
    assert |CCACHE_URI| != |APREQ_URI| && |APREQ_URI| > 0;
  }

  lemma PrintInjective(o: OutputType, q: OutputType)
    requires Print(o) == Print(q)
    ensures o == q
  {
    assert Print(o)[0] == (if o == CCACHE then 0x63 else if o == APREQ then 0x61 else 0x4F);
    assert Print(q)[0] == (if q == CCACHE then 0x63 else if q == APREQ then 0x61 else 0x4F);
    if !Defined(o) {
      var head := |Ascii("OutputType(")|;
      assert Decimal.PrintSigned(o) == Print(o)[head..|Print(o)| - 1];
      assert Decimal.PrintSigned(q) == Print(q)[head..|Print(q)| - 1];
      Decimal.PrintSignedInjective(o, q);
    }
  }

  lemma PrintHasNoNul(o: OutputType)
    ensures NUL !in Print(o)
  {
    if !Defined(o) {
      var digits := Decimal.Print(if o < 0 then -o else o);
      assert NUL !in digits;
      assert NUL !in Ascii("OutputType(") && NUL !in Ascii(")");
      assert NUL !in Decimal.PrintSigned(o);
    }
  }
}
