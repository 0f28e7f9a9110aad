TestResult.DisplayName,TestResult.Outcome,TestResult.Duration,TestResult.ResourceCount,RandomSeed
RoundTrip.IsdnAddressReencode (correctness),Failed,00:00:20.6555275,20102439,0
RoundTrip.IsdnAddressReencode (well-formedness),Passed,00:00:00.2563342,102838,0
